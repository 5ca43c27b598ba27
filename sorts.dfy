/** The sort orders the queries ask the store for, as sort keys, and what a
 *  list in each order says about the documents' fields.
 */
module Sorts {
  import opened Ids
  import opened Maybe
  import opened Documents
  import opened Order

  // get_collections: `("is_default", -1), ("name", 1)`.

  function CollectionKey(cs: map<Oid, Collection>): Oid -> Key {
    (k: Oid) =>
      if k in cs then Key([-BoolRank(cs[k].isDefault), NameRank(cs[k].name)], NameCodes(cs[k].name), Codes(k))
      else Natural(k)
  }

  lemma CollectionKeyTagged(cs: map<Oid, Collection>)
    ensures Tagged(CollectionKey(cs))
  {
  }

  /** Default collections first (then non-defaults, then null), by name within each group. */
  ghost predicate DefaultsThenByName(r: seq<Collection>) {
    forall i, j :: 0 <= i < j < |r| ==>
      BoolRank(r[i].isDefault) > BoolRank(r[j].isDefault)
      || (BoolRank(r[i].isDefault) == BoolRank(r[j].isDefault) && NameNotAfter(r[i].name, r[j].name))
  }

  lemma CollectionOrder(cs: map<Oid, Collection>, ids: seq<Oid>)
    requires forall i :: 0 <= i < |ids| ==> ids[i] in cs
    requires Ascending(ids, CollectionKey(cs))
    ensures DefaultsThenByName(Lookup(cs, ids))
  {
    var r := Lookup(cs, ids);
    forall i, j | 0 <= i < j < |r|
      ensures BoolRank(r[i].isDefault) > BoolRank(r[j].isDefault)
           || (BoolRank(r[i].isDefault) == BoolRank(r[j].isDefault) && NameNotAfter(r[i].name, r[j].name))
    {
      KeyLessTwoRanks(CollectionKey(cs)(ids[i]), CollectionKey(cs)(ids[j]));
    }
  }

  // get_notes and get_collection_with_notes: `("is_pinned", -1), ("updated_at", -1)`.

  function PinnedKey(notes: map<Oid, Note>): Oid -> Key {
    (k: Oid) =>
      if k in notes then Key([-BoolRank(notes[k].pinned), -(notes[k].updatedAt as int)], [], Codes(k))
      else Natural(k)
  }

  lemma PinnedKeyTagged(notes: map<Oid, Note>)
    ensures Tagged(PinnedKey(notes))
  {
  }

  /** A page of `selected`, pinned notes first and most recently updated first. */
  function PinnedPage(notes: map<Oid, Note>, selected: set<Oid>, skip: nat, limit: nat): (ids: seq<Oid>)
    ensures |ids| <= limit
    ensures |ids| == PageSize(|selected|, skip, limit) == |Window(selected, PinnedKey(notes), skip, limit)|
    ensures forall x :: x in ids <==> x in Window(selected, PinnedKey(notes), skip, limit)
    ensures forall i :: 0 <= i < |ids| ==> ids[i] in selected
    ensures Ascending(ids, PinnedKey(notes))
  {
    PinnedKeyTagged(notes);
    var ids := PageOf(selected, PinnedKey(notes), skip, limit);
    assert forall i :: 0 <= i < |ids| ==> ids[i] in Window(selected, PinnedKey(notes), skip, limit);
    ids
  }

  /** Pinned notes first, most recently updated first within each group. */
  ghost predicate PinnedThenRecent(r: seq<Note>) {
    forall i, j :: 0 <= i < j < |r| ==>
      BoolRank(r[i].pinned) > BoolRank(r[j].pinned)
      || (BoolRank(r[i].pinned) == BoolRank(r[j].pinned) && r[i].updatedAt >= r[j].updatedAt)
  }

  lemma PinnedOrder(notes: map<Oid, Note>, ids: seq<Oid>)
    requires forall i :: 0 <= i < |ids| ==> ids[i] in notes
    requires Ascending(ids, PinnedKey(notes))
    ensures PinnedThenRecent(Lookup(notes, ids))
  {
    var r := Lookup(notes, ids);
    forall i, j | 0 <= i < j < |r|
      ensures BoolRank(r[i].pinned) > BoolRank(r[j].pinned)
           || (BoolRank(r[i].pinned) == BoolRank(r[j].pinned) && r[i].updatedAt >= r[j].updatedAt)
    {
      KeyLessTwoRanks(PinnedKey(notes)(ids[i]), PinnedKey(notes)(ids[j]));
    }
  }

  // get_notes_by_tag and get_shared_notes: `("updated_at", -1)`.

  function RecentKey(notes: map<Oid, Note>): Oid -> Key {
    (k: Oid) => if k in notes then Key([-(notes[k].updatedAt as int)], [], Codes(k)) else Natural(k)
  }

  lemma RecentKeyTagged(notes: map<Oid, Note>)
    ensures Tagged(RecentKey(notes))
  {
  }

  ghost predicate MostRecentFirst(r: seq<Note>) {
    forall i, j :: 0 <= i < j < |r| ==> r[i].updatedAt >= r[j].updatedAt
  }

  lemma RecentOrder(notes: map<Oid, Note>, ids: seq<Oid>)
    requires forall i :: 0 <= i < |ids| ==> ids[i] in notes
    requires Ascending(ids, RecentKey(notes))
    ensures MostRecentFirst(Lookup(notes, ids))
  {
    var r := Lookup(notes, ids);
    forall i, j | 0 <= i < j < |r| ensures r[i].updatedAt >= r[j].updatedAt {
      KeyLessOneRank(RecentKey(notes)(ids[i]), RecentKey(notes)(ids[j]));
    }
  }

  // get_notes with search text: `("score", {"$meta": "textScore"})`, best match first.
  // The text index's relevance score of a note for a search is the parameter
  // `textScore`: None when the note does not match the search at all.

  function ScoreKey(notes: map<Oid, Note>, textScore: (string, Note) -> Option<nat>, text: string): Oid -> Key {
    (k: Oid) =>
      if k in notes && textScore(text, notes[k]).Some? then Key([-(textScore(text, notes[k]).value as int)], [], Codes(k))
      else Natural(k)
  }

  lemma ScoreKeyTagged(notes: map<Oid, Note>, textScore: (string, Note) -> Option<nat>, text: string)
    ensures Tagged(ScoreKey(notes, textScore, text))
  {
    forall a: Oid ensures ScoreKey(notes, textScore, text)(a).id == Codes(a) {
      var key := ScoreKey(notes, textScore, text);
      if a in notes && textScore(text, notes[a]).Some? {
        assert key(a) == Key([-(textScore(text, notes[a]).value as int)], [], Codes(a));
      } else {
        assert key(a) == Natural(a);
      }
    }
  }

  /** Every note matches the search, and the better match comes first. */
  ghost predicate BestMatchFirst(r: seq<Note>, textScore: (string, Note) -> Option<nat>, text: string) {
    && (forall i :: 0 <= i < |r| ==> textScore(text, r[i]).Some?)
    && (forall i, j :: 0 <= i < j < |r| ==> textScore(text, r[i]).value >= textScore(text, r[j]).value)
  }

  lemma ScoreOrder(notes: map<Oid, Note>, textScore: (string, Note) -> Option<nat>, text: string, ids: seq<Oid>)
    requires forall i :: 0 <= i < |ids| ==> ids[i] in notes && textScore(text, notes[ids[i]]).Some?
    requires Ascending(ids, ScoreKey(notes, textScore, text))
    ensures BestMatchFirst(Lookup(notes, ids), textScore, text)
  {
    var r := Lookup(notes, ids);
    forall i, j | 0 <= i < j < |r| ensures textScore(text, r[i]).value >= textScore(text, r[j]).value {
      KeyLessOneRank(ScoreKey(notes, textScore, text)(ids[i]), ScoreKey(notes, textScore, text)(ids[j]));
    }
  }

  // get_tags: `("name", 1)`.

  function TagKey(tags: map<Oid, Tag>): Oid -> Key {
    (k: Oid) => if k in tags then Key([NameRank(tags[k].name)], NameCodes(tags[k].name), Codes(k)) else Natural(k)
  }

  lemma TagKeyTagged(tags: map<Oid, Tag>)
    ensures Tagged(TagKey(tags))
  {
  }

  ghost predicate ByName(r: seq<Tag>) {
    forall i, j :: 0 <= i < j < |r| ==> NameNotAfter(r[i].name, r[j].name)
  }

  lemma TagOrder(tags: map<Oid, Tag>, ids: seq<Oid>)
    requires forall i :: 0 <= i < |ids| ==> ids[i] in tags
    requires Ascending(ids, TagKey(tags))
    ensures ByName(Lookup(tags, ids))
  {
    var r := Lookup(tags, ids);
    forall i, j | 0 <= i < j < |r| ensures NameNotAfter(r[i].name, r[j].name) {
      KeyLessOneRank(TagKey(tags)(ids[i]), TagKey(tags)(ids[j]));
    }
  }
}
