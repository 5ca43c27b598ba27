/** The cross-document consistency conditions of the store, the multi-document
 *  writes the CRUD layer issues, and how each write moves the counts the
 *  conditions compare against.
 */
module Consistency {
  import opened Ids
  import opened Maybe
  import opened Documents
  import opened Order

  // ---------------------------------------------------------------------------
  // What a stored counter is supposed to count

  /** The notes whose tag list contains `t`. */
  function NotesWithTag(notes: map<Oid, Note>, t: Oid): set<Oid> {
    set k | k in notes && HasTag(notes[k], t)
  }

  function TagUses(notes: map<Oid, Note>, t: Oid): nat {
    |NotesWithTag(notes, t)|
  }

  /** The collection_notes rows of collection `c`. */
  function RowsOf(links: map<Oid, Link>, c: Oid): set<Oid> {
    set r | r in links && links[r].collection == c
  }

  function RowCount(links: map<Oid, Link>, c: Oid): nat {
    |RowsOf(links, c)|
  }

  /** The rows linking collection `c` and note `n`. */
  function RowsFor(links: map<Oid, Link>, c: Oid, n: Oid): set<Oid> {
    set r | r in links && links[r].collection == c && links[r].note == n
  }

  /** Note `p` is stored under some id that has a row in collection `c`. */
  predicate Linked(notes: map<Oid, Note>, links: map<Oid, Link>, c: Oid, p: Note) {
    exists k :: k in notes && notes[k] == p && RowsFor(links, c, k) != {}
  }

  /** The grants of note `n` to user `u`. */
  function GrantsFor(shares: map<Oid, Share>, n: Oid, u: Oid): set<Oid> {
    set g | g in shares && shares[g].note == n && shares[g].user == u
  }

  predicate IsDefault(c: Collection) {
    c.isDefault == Some(true)
  }

  /** The owner's collections matching `{"owner_id": owner, "is_default": True}`. */
  function DefaultsOf(cs: map<Oid, Collection>, owner: Oid): set<Oid> {
    set k | k in cs && cs[k].owner == owner && IsDefault(cs[k])
  }

  // ---------------------------------------------------------------------------
  // A read shared by collection.py and note.py

  /** The note ids of a list of rows. */
  function NotesOfRows(links: map<Oid, Link>, rows: seq<Oid>): (r: seq<Oid>)
    requires forall i :: 0 <= i < |rows| ==> rows[i] in links
    ensures |r| == |rows|
    ensures forall i :: 0 <= i < |rows| ==> r[i] == links[rows[i]].note
  {
    seq(|rows|, i requires 0 <= i < |rows| => links[rows[i]].note)
  }

  /** The note ids of the collection's membership rows, `to_list(length=1000)` in
      natural order. */
  function MemberIds(links: map<Oid, Link>, c: Oid): (r: seq<Oid>)
    ensures |r| <= 1000
    ensures r == [] <==> RowsOf(links, c) == {}
    ensures forall n :: n in r ==> RowsFor(links, c, n) != {}
    ensures RowCount(links, c) <= 1000 ==> forall n :: RowsFor(links, c, n) != {} ==> n in r
  {
    var rows := TakeNatural(RowsOf(links, c), 1000);
    MemberIdsFacts(links, c, rows);
    NotesOfRows(links, rows)
  }

  lemma MemberIdsFacts(links: map<Oid, Link>, c: Oid, rows: seq<Oid>)
    requires rows == TakeNatural(RowsOf(links, c), 1000)
    ensures forall i :: 0 <= i < |rows| ==> rows[i] in links
    ensures NotesOfRows(links, rows) == [] <==> RowsOf(links, c) == {}
    ensures forall n :: n in NotesOfRows(links, rows) ==> RowsFor(links, c, n) != {}
    ensures RowCount(links, c) <= 1000 ==> forall n :: RowsFor(links, c, n) != {} ==> n in NotesOfRows(links, rows)
  {
    assert forall i :: 0 <= i < |rows| ==> rows[i] in RowsOf(links, c);
    var r := NotesOfRows(links, rows);
    forall n | n in r ensures RowsFor(links, c, n) != {} {
      var i :| 0 <= i < |r| && r[i] == n;
      assert rows[i] in RowsFor(links, c, n);
    }
    if RowCount(links, c) <= 1000 {
      forall n | RowsFor(links, c, n) != {} ensures n in r {
        var row :| row in RowsFor(links, c, n);
        assert row in RowsOf(links, c);
        var i :| 0 <= i < |rows| && rows[i] == row;
        assert r[i] == n;
      }
    }
    if RowsOf(links, c) != {} {
      assert |rows| > 0;
    }
  }

  // ---------------------------------------------------------------------------
  // The conditions

  /** Every tag's note_count is the number of notes carrying it. */
  ghost predicate TagCountsExact(tags: map<Oid, Tag>, notes: map<Oid, Note>) {
    forall t :: t in tags ==> tags[t].noteCount == TagUses(notes, t)
  }

  /** Every collection's note_count is the number of its membership rows. */
  ghost predicate CollectionCountsExact(cs: map<Oid, Collection>, links: map<Oid, Link>) {
    forall c :: c in cs ==> cs[c].noteCount == RowCount(links, c)
  }

  /** At most one default collection per owner. */
  ghost predicate OneDefaultPerOwner(cs: map<Oid, Collection>) {
    forall a, b :: a in cs && b in cs && cs[a].owner == cs[b].owner && IsDefault(cs[a]) && IsDefault(cs[b]) ==> a == b
  }

  /** At most one membership row per (collection, note). */
  ghost predicate LinksUnique(links: map<Oid, Link>) {
    forall a, b :: a in links && b in links && links[a].collection == links[b].collection && links[a].note == links[b].note ==> a == b
  }

  /** Every membership row joins a stored collection and a stored note of the
      same owner. */
  ghost predicate LinksWithinOwner(cs: map<Oid, Collection>, notes: map<Oid, Note>, links: map<Oid, Link>) {
    forall r :: r in links ==>
      && links[r].collection in cs && links[r].note in notes
      && cs[links[r].collection].owner == notes[links[r].note].owner
  }

  /** At most one grant per (note, user): the unique index on shared_notes. */
  ghost predicate GrantsUnique(shares: map<Oid, Share>) {
    forall a, b :: a in shares && b in shares && shares[a].note == shares[b].note && shares[a].user == shares[b].user ==> a == b
  }

  /** No grant of a stored note names the note's own owner. */
  ghost predicate GrantsNotToOwner(shares: map<Oid, Share>, notes: map<Oid, Note>) {
    forall g :: g in shares && shares[g].note in notes ==> notes[shares[g].note].owner != shares[g].user
  }

  /** Tag names are unique per owner. */
  ghost predicate TagNamesUnique(tags: map<Oid, Tag>) {
    forall a, b :: a in tags && b in tags && tags[a].owner == tags[b].owner && tags[a].name == tags[b].name ==> a == b
  }

  /** E-mail addresses are unique: the unique index on users.email (null counts as a value). */
  ghost predicate EmailsUnique(users: map<Oid, User>) {
    forall a, b :: a in users && b in users && users[a].email == users[b].email ==> a == b
  }

  /** User names are unique: the unique index on users.username. */
  ghost predicate UsernamesUnique(users: map<Oid, User>) {
    forall a, b :: a in users && b in users && users[a].username == users[b].username ==> a == b
  }

  /** Every document is stored under its own `_id`. */
  ghost predicate UsersKeyed(users: map<Oid, User>) { forall k :: k in users ==> users[k].id == k }
  ghost predicate NotesKeyed(notes: map<Oid, Note>) { forall k :: k in notes ==> notes[k].id == k }
  ghost predicate TagsKeyed(tags: map<Oid, Tag>) { forall k :: k in tags ==> tags[k].id == k }
  ghost predicate CollectionsKeyed(cs: map<Oid, Collection>) { forall k :: k in cs ==> cs[k].id == k }
  ghost predicate LinksKeyed(links: map<Oid, Link>) { forall k :: k in links ==> links[k].id == k }
  ghost predicate SharesKeyed(shares: map<Oid, Share>) { forall k :: k in shares ==> shares[k].id == k }

  /** Every condition at once, over the six collections of the store. */
  ghost predicate StoreConsistent(users: map<Oid, User>, notes: map<Oid, Note>, tags: map<Oid, Tag>,
                                  cs: map<Oid, Collection>, links: map<Oid, Link>, shares: map<Oid, Share>) {
    && UsersKeyed(users) && NotesKeyed(notes) && TagsKeyed(tags)
    && CollectionsKeyed(cs) && LinksKeyed(links) && SharesKeyed(shares)
    && TagCountsExact(tags, notes)
    && CollectionCountsExact(cs, links)
    && OneDefaultPerOwner(cs)
    && LinksUnique(links)
    && LinksWithinOwner(cs, notes, links)
    && GrantsUnique(shares)
    && GrantsNotToOwner(shares, notes)
    && TagNamesUnique(tags)
    && EmailsUnique(users)
    && UsernamesUnique(users)
  }

  // ---------------------------------------------------------------------------
  // Multi-document writes

  /** `tags.update_many({"_id": {"$in": ids}}, {"$inc": {"note_count": d}})`:
      ids that name no tag are ignored, and ownership is not consulted. */
  function IncTagCounts(tags: map<Oid, Tag>, ids: set<Oid>, d: int): (r: map<Oid, Tag>)
    ensures r.Keys == tags.Keys
  {
    map t | t in tags :: if t in ids then tags[t].(noteCount := tags[t].noteCount + d) else tags[t]
  }

  /** `collections.update_one({"_id": c}, {"$inc": {"note_count": d}})`. */
  function IncCollectionCount(cs: map<Oid, Collection>, c: Oid, d: int): (r: map<Oid, Collection>)
    ensures r.Keys == cs.Keys
  {
    if c in cs then cs[c := cs[c].(noteCount := cs[c].noteCount + d)] else cs
  }

  /** `$pull`: the list without any occurrence of `t`. */
  function Without(s: seq<Oid>, t: Oid): (r: seq<Oid>)
    ensures forall x :: x in r <==> x in s && x != t
    ensures |r| <= |s|
  {
    if s == [] then []
    else if s[0] == t then Without(s[1..], t)
    else [s[0]] + Without(s[1..], t)
  }

  /** `notes.update_many({"owner_id": owner, "tags": t}, {"$pull": {"tags": t}})`. */
  function PullTag(notes: map<Oid, Note>, owner: Oid, t: Oid): (r: map<Oid, Note>)
    ensures r.Keys == notes.Keys
  {
    map k | k in notes ::
      if notes[k].owner == owner && HasTag(notes[k], t)
      then notes[k].(tags := Some(Without(notes[k].tags.value, t)))
      else notes[k]
  }

  /** `collection_notes.delete_many({"note_id": n})`. */
  function DropLinksOfNote(links: map<Oid, Link>, n: Oid): (r: map<Oid, Link>)
    ensures r.Keys <= links.Keys
  {
    map r | r in links && links[r].note != n :: links[r]
  }

  /** `collection_notes.delete_many({"collection_id": c})`. */
  function DropLinksOfCollection(links: map<Oid, Link>, c: Oid): (r: map<Oid, Link>)
    ensures r.Keys <= links.Keys
  {
    map r | r in links && links[r].collection != c :: links[r]
  }

  /** `shared_notes.delete_many({"note_id": n})`. */
  function DropGrantsOfNote(shares: map<Oid, Share>, n: Oid): (r: map<Oid, Share>)
    ensures r.Keys <= shares.Keys
  {
    map g | g in shares && shares[g].note != n :: shares[g]
  }

  /** `collections.update_many({"owner_id": owner, "is_default": True}, {"$set": {"is_default": False}})`. */
  function DemoteDefaults(cs: map<Oid, Collection>, owner: Oid): (r: map<Oid, Collection>)
    ensures r.Keys == cs.Keys
  {
    map k | k in cs :: if k in DefaultsOf(cs, owner) then cs[k].(isDefault := Some(false)) else cs[k]
  }

  /** `find_one({"owner_id": owner, "is_default": True})` and, when one is found,
      `update_one` setting its is_default to False. */
  function DemoteFirstDefault(cs: map<Oid, Collection>, owner: Oid): (r: map<Oid, Collection>)
    ensures r.Keys == cs.Keys
  {
    var ds := DefaultsOf(cs, owner);
    if ds == {} then cs
    else
      var k := FirstOf(ds);
      cs[k := cs[k].(isDefault := Some(false))]
  }

  // ---------------------------------------------------------------------------
  // How the writes move the counts

  /** Two sets that agree off `k` differ in size by what each says about `k`. */
  lemma CardAgreeingOff<T>(before: set<T>, after: set<T>, k: T)
    requires after - {k} == before - {k}
    ensures |after| == |before| - (if k in before then 1 else 0) + (if k in after then 1 else 0)
  {
    var rest := before - {k};
    if k in before {
      assert before == rest + {k};
    } else {
      assert before == rest;
    }
    if k in after {
      assert after == rest + {k};
    } else {
      assert after == rest;
    }
  }

  /** Storing `n` under `k` (an insert or a replacement) moves the uses of `t`
      by what the old and the new document say about `t`. */
  lemma TagUsesStore(notes: map<Oid, Note>, k: Oid, n: Note, t: Oid)
    ensures TagUses(notes[k := n], t)
         == TagUses(notes, t) - (if k in notes && HasTag(notes[k], t) then 1 else 0) + (if HasTag(n, t) then 1 else 0)
  {
    var before := NotesWithTag(notes, t);
    var after := NotesWithTag(notes[k := n], t);
    assert after - {k} == before - {k};
    CardAgreeingOff(before, after, k);
  }

  /** Removing note `k` takes away its use of `t`, if it had one. */
  lemma TagUsesRemove(notes: map<Oid, Note>, k: Oid, t: Oid)
    ensures TagUses(notes - {k}, t) == TagUses(notes, t) - (if k in notes && HasTag(notes[k], t) then 1 else 0)
  {
    var before := NotesWithTag(notes, t);
    assert NotesWithTag(notes - {k}, t) == before - {k};
    if k in notes && HasTag(notes[k], t) {
      assert before == (before - {k}) + {k};
    } else {
      assert before - {k} == before;
    }
  }

  /** Pulling `t` out of an owner's notes takes every one of that owner's uses of
      `t` away and leaves the uses of every other tag as they were. */
  lemma PullTagEffect(notes: map<Oid, Note>, owner: Oid, t: Oid)
    ensures forall k :: k in notes && notes[k].owner == owner ==> !HasTag(PullTag(notes, owner, t)[k], t)
    ensures forall k :: k in notes && notes[k].owner != owner ==> PullTag(notes, owner, t)[k] == notes[k]
    ensures forall u :: u != t ==> NotesWithTag(PullTag(notes, owner, t), u) == NotesWithTag(notes, u)
  {
    var r := PullTag(notes, owner, t);
    forall u | u != t ensures NotesWithTag(r, u) == NotesWithTag(notes, u) {
      forall k | k in notes ensures HasTag(r[k], u) <==> HasTag(notes[k], u) {
      }
    }
  }

  /** Storing row `l` under `k` moves the row count of `c` by what the old and
      the new row say about `c`. */
  lemma RowCountStore(links: map<Oid, Link>, k: Oid, l: Link, c: Oid)
    ensures RowCount(links[k := l], c)
         == RowCount(links, c) - (if k in links && links[k].collection == c then 1 else 0) + (if l.collection == c then 1 else 0)
  {
    var before := RowsOf(links, c);
    var after := RowsOf(links[k := l], c);
    assert after - {k} == before - {k};
    CardAgreeingOff(before, after, k);
  }

  lemma RowCountRemove(links: map<Oid, Link>, k: Oid, c: Oid)
    ensures RowCount(links - {k}, c) == RowCount(links, c) - (if k in links && links[k].collection == c then 1 else 0)
  {
    var before := RowsOf(links, c);
    assert RowsOf(links - {k}, c) == before - {k};
    if k in links && links[k].collection == c {
      assert before == (before - {k}) + {k};
    } else {
      assert before - {k} == before;
    }
  }

  /** Dropping the rows of one collection leaves every other collection's rows. */
  lemma RowCountDropCollection(links: map<Oid, Link>, c: Oid, other: Oid)
    requires other != c
    ensures RowCount(DropLinksOfCollection(links, c), other) == RowCount(links, other)
    ensures RowCount(DropLinksOfCollection(links, c), c) == 0
  {
    assert RowsOf(DropLinksOfCollection(links, c), other) == RowsOf(links, other);
    assert RowsOf(DropLinksOfCollection(links, c), c) == {};
  }

  /** Dropping the rows of note `n` takes exactly the rows (c, n) out of the rows of `c`. */
  lemma RowCountDropNote(links: map<Oid, Link>, n: Oid, c: Oid)
    ensures RowCount(DropLinksOfNote(links, n), c) == RowCount(links, c) - |RowsFor(links, c, n)|
  {
    var before := RowsOf(links, c);
    var gone := RowsFor(links, c, n);
    assert RowsOf(DropLinksOfNote(links, n), c) == before - gone;
    assert gone <= before;
    assert before == (before - gone) + gone;
  }

  /** With unique rows, a pair that has a row has exactly one. */
  lemma RowsForSingle(links: map<Oid, Link>, c: Oid, n: Oid, r: Oid)
    requires LinksUnique(links)
    requires r in links && links[r].collection == c && links[r].note == n
    ensures RowsFor(links, c, n) == {r}
  {
  }

  /** With unique grants, a pair that has a grant has exactly one. */
  lemma GrantsForSingle(shares: map<Oid, Share>, n: Oid, u: Oid, g: Oid)
    requires GrantsUnique(shares)
    requires g in shares && shares[g].note == n && shares[g].user == u
    ensures GrantsFor(shares, n, u) == {g}
  {
  }

  /** A set holding two different members has at least two. */
  lemma TwoMembers<T>(s: set<T>, x: T, y: T)
    requires x in s && y in s && x != y
    ensures |s| >= 2
  {
    var rest := s - {x};
    assert s == rest + {x};
    assert y in rest;
  }

  /** An owner with at most one default has none left once the first one is demoted. */
  lemma DemoteFirstDefaultClears(cs: map<Oid, Collection>, owner: Oid)
    requires |DefaultsOf(cs, owner)| <= 1
    ensures DefaultsOf(DemoteFirstDefault(cs, owner), owner) == {}
  {
    var ds := DefaultsOf(cs, owner);
    if ds != {} {
      var k := FirstOf(ds);
      forall x | x in ds ensures x == k {
        if x != k {
          TwoMembers(ds, x, k);
        }
      }
      assert DefaultsOf(DemoteFirstDefault(cs, owner), owner) == ds - {k};
    }
  }

  /** Demoting the first default removes exactly one default when there is one. */
  lemma DemoteFirstDefaultRemovesOne(cs: map<Oid, Collection>, owner: Oid)
    ensures |DefaultsOf(DemoteFirstDefault(cs, owner), owner)|
         == if DefaultsOf(cs, owner) == {} then 0 else |DefaultsOf(cs, owner)| - 1
  {
    var ds := DefaultsOf(cs, owner);
    if ds != {} {
      var k := FirstOf(ds);
      assert DefaultsOf(DemoteFirstDefault(cs, owner), owner) == ds - {k};
    }
  }

  /** Demoting every default of an owner leaves that owner none and every other
      owner's defaults as they were. */
  lemma DemoteDefaultsClears(cs: map<Oid, Collection>, owner: Oid)
    ensures DefaultsOf(DemoteDefaults(cs, owner), owner) == {}
    ensures forall o :: o != owner ==> DefaultsOf(DemoteDefaults(cs, owner), o) == DefaultsOf(cs, o)
  {
    var r := DemoteDefaults(cs, owner);
    forall o | o != owner ensures DefaultsOf(r, o) == DefaultsOf(cs, o) {
      forall k | k in cs ensures (k in DefaultsOf(r, o) <==> k in DefaultsOf(cs, o)) {
      }
    }
  }

  /** The pairwise form of the default condition, read per owner. */
  lemma OneDefaultPerOwnerBySets(cs: map<Oid, Collection>)
    ensures OneDefaultPerOwner(cs) <==> forall o :: |DefaultsOf(cs, o)| <= 1
  {
    if OneDefaultPerOwner(cs) {
      forall o ensures |DefaultsOf(cs, o)| <= 1 {
        var ds := DefaultsOf(cs, o);
        if ds != {} {
          var k :| k in ds;
          assert ds == {k};
        }
      }
    } else {
      var a, b :| a in cs && b in cs && cs[a].owner == cs[b].owner && IsDefault(cs[a]) && IsDefault(cs[b]) && a != b;
      TwoMembers(DefaultsOf(cs, cs[a].owner), a, b);
    }
  }
}
