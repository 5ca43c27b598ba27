/** app/api/endpoints/collections.py: adding a batch of notes to a collection,
 *  and removing one note from it, as HTTP replies.
 */
module CollectionEndpoints {
  import opened Ids
  import opened Maybe
  import opened Documents
  import opened Consistency
  import opened Database
  import opened CollectionCrud

  /** The reply of add_notes_to_collection: the success message, or status 400
      naming the note that could not be added. */
  datatype AddReply = AllAdded | AddFailed(noteId: string)

  /** The position of the first note id add_note_to_collection would refuse, or
      |noteIds| when it accepts them all. */
  function FirstRefused(cs: map<Oid, Collection>, notes: map<Oid, Note>, collectionId: string,
                        noteIds: seq<string>, owner: Oid): (j: nat)
    ensures j <= |noteIds|
    ensures forall k :: 0 <= k < j ==> CanLink(cs, notes, collectionId, noteIds[k], owner)
    ensures j < |noteIds| ==> !CanLink(cs, notes, collectionId, noteIds[j], owner)
    decreases |noteIds|
  {
    if noteIds == [] then 0
    else if !CanLink(cs, notes, collectionId, noteIds[0], owner) then 0
    else
      var j := 1 + FirstRefused(cs, notes, collectionId, noteIds[1..], owner);
      assert forall k :: 1 <= k < j ==> noteIds[k] == noteIds[1..][k - 1];
      j
  }

  /** The two collection maps hold the same collections with the same owners. */
  ghost predicate SameOwners(before: map<Oid, Collection>, after: map<Oid, Collection>) {
    before.Keys == after.Keys && forall x :: x in before ==> after[x].owner == before[x].owner
  }

  /** What may be linked depends on who owns the collections, not on their counters. */
  lemma CanLinkFollowsOwners(cs0: map<Oid, Collection>, cs1: map<Oid, Collection>, notes: map<Oid, Note>,
                             collectionId: string, noteId: string, owner: Oid)
    requires SameOwners(cs0, cs1)
    ensures CanLink(cs1, notes, collectionId, noteId, owner) == CanLink(cs0, notes, collectionId, noteId, owner)
  {
  }

  /** Raising a counter keeps the collections and their owners. */
  lemma CountKeepsOwners(cs0: map<Oid, Collection>, cs1: map<Oid, Collection>, c: Oid, d: int)
    requires SameOwners(cs0, cs1)
    ensures SameOwners(cs0, IncCollectionCount(cs1, c, d))
  {
  }

  /** The collections after `d` `$inc` steps of +1 on the counter of the
      collection `collectionId` names; an unparseable id names none. */
  function Raised(cs: map<Oid, Collection>, collectionId: string, d: int): map<Oid, Collection> {
    if ValidId(collectionId) then IncCollectionCount(cs, ToOid(collectionId), d) else cs
  }

  /** Raising a counter by nothing changes nothing. */
  lemma RaisedByNothing(cs: map<Oid, Collection>, collectionId: string)
    ensures Raised(cs, collectionId, 0) == cs
  {
    if ValidId(collectionId) && ToOid(collectionId) in cs {
      var c := ToOid(collectionId);
      assert cs[c].(noteCount := cs[c].noteCount + 0) == cs[c];
    }
  }

  /** One more `$inc` of +1 raises the counter once more. */
  lemma RaisedOnceMore(cs: map<Oid, Collection>, collectionId: string, d: int)
    requires ValidId(collectionId)
    ensures IncCollectionCount(Raised(cs, collectionId, d), ToOid(collectionId), 1) == Raised(cs, collectionId, d + 1)
  {
  }

  /** Every row of `before` is still in `after`, unchanged. */
  ghost predicate Grows(before: map<Oid, Link>, after: map<Oid, Link>) {
    forall x :: x in before ==> x in after && after[x] == before[x]
  }

  /** Each of the first `count` requested notes has a row in the collection. */
  ghost predicate RowsPresent(links: map<Oid, Link>, collectionId: string, noteIds: seq<string>, count: nat)
    requires count <= |noteIds|
  {
    forall k :: 0 <= k < count ==>
      ValidId(collectionId) && ValidId(noteIds[k]) && RowsFor(links, ToOid(collectionId), ToOid(noteIds[k])) != {}
  }

  /** Every row of `after` that `before` lacks links one of the first `count`
      requested notes to the collection, under the matching fresh id. */
  ghost predicate RowsExplained(before: map<Oid, Link>, after: map<Oid, Link>, collectionId: string,
                                noteIds: seq<string>, ids: seq<Oid>, count: nat, now: Time)
    requires count <= |noteIds| == |ids|
  {
    forall x :: x in after && x !in before ==>
      exists k :: 0 <= k < count && ValidId(collectionId) && ValidId(noteIds[k])
                && after[x] == Link(ids[k], ToOid(collectionId), ToOid(noteIds[k]), now)
  }

  /** `after` is `before` with the first `count` requested notes linked to the
      collection and nothing else added. */
  ghost predicate LinkedPrefix(before: map<Oid, Link>, after: map<Oid, Link>, collectionId: string,
                               noteIds: seq<string>, ids: seq<Oid>, count: nat, now: Time)
    requires count <= |noteIds| == |ids|
  {
    && Grows(before, after)
    && RowsPresent(after, collectionId, noteIds, count)
    && RowsExplained(before, after, collectionId, noteIds, ids, count, now)
  }

  lemma RowsPresentStep(mid: map<Oid, Link>, after: map<Oid, Link>, collectionId: string, noteIds: seq<string>, i: nat)
    requires i < |noteIds| && RowsPresent(mid, collectionId, noteIds, i) && Grows(mid, after)
    requires ValidId(collectionId) && ValidId(noteIds[i])
    requires RowsFor(after, ToOid(collectionId), ToOid(noteIds[i])) != {}
    ensures RowsPresent(after, collectionId, noteIds, i + 1)
  {
    var c := ToOid(collectionId);
    forall k | 0 <= k < i ensures RowsFor(after, c, ToOid(noteIds[k])) != {} {
      assert ValidId(noteIds[k]) && RowsFor(mid, c, ToOid(noteIds[k])) != {};
      var x :| x in RowsFor(mid, c, ToOid(noteIds[k]));
      assert x in RowsFor(after, c, ToOid(noteIds[k]));
    }
  }

  lemma RowsExplainedStep(before: map<Oid, Link>, mid: map<Oid, Link>, after: map<Oid, Link>, collectionId: string,
                          noteIds: seq<string>, ids: seq<Oid>, i: nat, now: Time)
    requires i < |noteIds| == |ids| && RowsExplained(before, mid, collectionId, noteIds, ids, i, now)
    requires ValidId(collectionId) && ValidId(noteIds[i])
    requires after == mid || after == mid[ids[i] := Link(ids[i], ToOid(collectionId), ToOid(noteIds[i]), now)]
    ensures RowsExplained(before, after, collectionId, noteIds, ids, i + 1, now)
  {
    var c := ToOid(collectionId);
    forall x | x in after && x !in before
      ensures exists k :: 0 <= k < i + 1 && ValidId(collectionId) && ValidId(noteIds[k])
                       && after[x] == Link(ids[k], c, ToOid(noteIds[k]), now)
    {
      if x != ids[i] || after == mid {
        assert x in mid && after[x] == mid[x];
        var k :| 0 <= k < i && ValidId(collectionId) && ValidId(noteIds[k])
                 && mid[x] == Link(ids[k], c, ToOid(noteIds[k]), now);
      } else {
        assert after[x] == Link(ids[i], c, ToOid(noteIds[i]), now);
      }
    }
  }

  /** One more successful add extends the linked prefix by its note. */
  lemma LinkedPrefixStep(before: map<Oid, Link>, mid: map<Oid, Link>, after: map<Oid, Link>, collectionId: string,
                         noteIds: seq<string>, ids: seq<Oid>, i: nat, now: Time)
    requires i < |noteIds| == |ids| && LinkedPrefix(before, mid, collectionId, noteIds, ids, i, now)
    requires ValidId(collectionId) && ValidId(noteIds[i]) && ids[i] !in mid
    requires RowsFor(mid, ToOid(collectionId), ToOid(noteIds[i])) != {} ==> after == mid
    requires RowsFor(mid, ToOid(collectionId), ToOid(noteIds[i])) == {} ==>
               after == mid[ids[i] := Link(ids[i], ToOid(collectionId), ToOid(noteIds[i]), now)]
    ensures LinkedPrefix(before, after, collectionId, noteIds, ids, i + 1, now)
  {
    var c, n := ToOid(collectionId), ToOid(noteIds[i]);
    assert Grows(mid, after);
    if RowsFor(mid, c, n) == {} {
      assert ids[i] in RowsFor(after, c, n);
    }
    RowsPresentStep(mid, after, collectionId, noteIds, i);
    RowsExplainedStep(before, mid, after, collectionId, noteIds, ids, i, now);
  }

  /** add_notes_to_collection: adds the notes in request order and stops at the
      first one that cannot be added. What was added before it stays. */
  method AddNotesToCollection(db: Store, collectionId: string, noteIds: seq<string>, owner: Oid,
                              ids: seq<Oid>, now: Time) returns (r: AddReply)
    requires |ids| == |noteIds|
    requires forall i, j :: 0 <= i < j < |ids| ==> ids[i] != ids[j]
    requires forall i :: 0 <= i < |ids| ==> ids[i] !in db.links
    modifies db
    ensures var j := FirstRefused(old(db.collections), old(db.notes), collectionId, noteIds, owner);
            && (r == AllAdded <==> j == |noteIds|)
            && (r.AddFailed? ==> j < |noteIds| && r.noteId == noteIds[j])
            && LinkedPrefix(old(db.links), db.links, collectionId, noteIds, ids, j, now)
    ensures db.collections == Raised(old(db.collections), collectionId, |db.links| - |old(db.links)|)
    ensures db.users == old(db.users) && db.notes == old(db.notes) && db.tags == old(db.tags)
    ensures db.shares == old(db.shares)
    ensures old(db.Consistent()) ==> db.Consistent()
  {
    ghost var j := FirstRefused(db.collections, db.notes, collectionId, noteIds, owner);
    RaisedByNothing(db.collections, collectionId);
    ghost var added: nat := 0;
    var i := 0;
    while i < |noteIds|
      invariant 0 <= i <= j
      invariant LinkedPrefix(old(db.links), db.links, collectionId, noteIds, ids, i, now)
      invariant forall k :: i <= k < |ids| ==> ids[k] !in db.links
      invariant SameOwners(old(db.collections), db.collections)
      invariant db.collections == Raised(old(db.collections), collectionId, added) && |db.links| == |old(db.links)| + added
      invariant db.users == old(db.users) && db.notes == old(db.notes) && db.tags == old(db.tags)
      invariant db.shares == old(db.shares)
      invariant old(db.Consistent()) ==> db.Consistent()
    {
      var ok;
      ok, added := AddNext(db, collectionId, noteIds, owner, ids, i, now, old(db.collections), old(db.links), added);
      if !ok {
        assert i == j;
        return AddFailed(noteIds[i]);
      }
      i := i + 1;
    }
    assert i == j;
    r := AllAdded;
  }

  /** One pass of add_notes_to_collection's loop, with what it does to the
      batch so far: the note is added exactly when add_note_to_collection
      accepts it, and then the linked prefix grows by one note and the counter
      by the rows inserted. */
  method AddNext(db: Store, collectionId: string, noteIds: seq<string>, owner: Oid, ids: seq<Oid>, i: nat, now: Time,
                 ghost cs: map<Oid, Collection>, ghost links: map<Oid, Link>, ghost added: nat)
    returns (ok: bool, ghost added': nat)
    requires i < |noteIds| == |ids| && ids[i] !in db.links
    requires LinkedPrefix(links, db.links, collectionId, noteIds, ids, i, now)
    requires SameOwners(cs, db.collections)
    requires db.collections == Raised(cs, collectionId, added) && |db.links| == |links| + added
    modifies db
    ensures ok == CanLink(cs, old(db.notes), collectionId, noteIds[i], owner)
    ensures !ok ==> unchanged(db)
    ensures ok ==> LinkedPrefix(links, db.links, collectionId, noteIds, ids, i + 1, now)
    ensures SameOwners(cs, db.collections)
    ensures db.collections == Raised(cs, collectionId, added') && |db.links| == |links| + added'
    ensures forall x :: x in db.links ==> x in old(db.links) || x == ids[i]
    ensures db.users == old(db.users) && db.notes == old(db.notes) && db.tags == old(db.tags)
    ensures db.shares == old(db.shares)
    ensures old(db.Consistent()) ==> db.Consistent()
  {
    ghost var links0, collections0 := db.links, db.collections;
    CanLinkFollowsOwners(cs, db.collections, db.notes, collectionId, noteIds[i], owner);
    added' := added;
    ok := AddNoteToCollection(db, collectionId, noteIds[i], owner, ids[i], now);
    if !ok {
      return;
    }
    if RowsFor(links0, ToOid(collectionId), ToOid(noteIds[i])) == {} {
      CountKeepsOwners(cs, collections0, ToOid(collectionId), 1);
      RaisedOnceMore(cs, collectionId, added);
      added' := added + 1;
    }
    LinkedPrefixStep(links, links0, db.links, collectionId, noteIds, ids, i, now);
  }

  /** The reply of remove_note_from_collection_by_id: 204 or 404. */
  datatype RemoveReply = Removed | NotFound

  method RemoveNoteFromCollectionById(db: Store, collectionId: string, noteId: string, owner: Oid)
    returns (r: RemoveReply)
    modifies db
    ensures r == NotFound <==> !(&& ValidId(collectionId) && ValidId(noteId)
                                 && Owns(old(db.collections), collectionId, owner)
                                 && RowsFor(old(db.links), ToOid(collectionId), ToOid(noteId)) != {})
    ensures r == NotFound ==> unchanged(db)
    ensures r == Removed ==>
              && db.links == old(db.links) - {RowToRemove(old(db.links), ToOid(collectionId), ToOid(noteId))}
              && db.collections == IncCollectionCount(old(db.collections), ToOid(collectionId), -1)
    ensures db.users == old(db.users) && db.notes == old(db.notes) && db.tags == old(db.tags)
    ensures db.shares == old(db.shares)
    ensures old(db.Consistent()) ==> db.Consistent()
  {
    var ok := RemoveNoteFromCollection(db, collectionId, noteId, owner);
    r := if ok then Removed else NotFound;
  }
}
