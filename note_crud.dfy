/** app/crud/note.py: notes, the tag counters their tag lists drive, and the
 *  cascade of a note's deletion to its membership rows and grants.
 */
module NoteCrud {
  import opened Ids
  import opened Maybe
  import opened Documents
  import opened Order
  import opened Sorts
  import opened Consistency
  import opened Database

  // ---------------------------------------------------------------------------
  // Reads

  /** get_note_by_id: the note stored under the id, and only when it belongs to
      `owner` if an owner is given. */
  function GetNoteById(notes: map<Oid, Note>, noteId: string, owner: Option<Oid>): (r: Option<Note>)
    ensures r.Some? ==> ValidId(noteId) && ToOid(noteId) in notes && r.value == notes[ToOid(noteId)]
    ensures r.Some? && owner.Some? ==> r.value.owner == owner.value
    ensures ValidId(noteId) && ToOid(noteId) in notes && (owner.None? || notes[ToOid(noteId)].owner == owner.value)
            ==> r.Some?
  {
    if !ValidId(noteId) then None
    else
      var k := ToOid(noteId);
      if k in notes && (owner.None? || notes[k].owner == owner.value) then Some(notes[k]) else None
  }

  /** The owned lookup every write below starts with. */
  predicate OwnsNote(notes: map<Oid, Note>, noteId: string, owner: Oid) {
    GetNoteById(notes, noteId, Some(owner)).Some?
  }

  /** The note matches `{"tags": {"$in": ids}}`. */
  predicate TaggedWithAny(n: Note, ids: seq<Oid>) {
    exists t :: t in ids && HasTag(n, t)
  }

  /** The query get_notes composes: the owner's notes, narrowed by each filter
      that is given. An empty tag list, an empty collection id and no
      pinned_only mean no filter. */
  function NoteFilter(notes: map<Oid, Note>, links: map<Oid, Link>, owner: Oid,
                      tagIds: seq<string>, pinnedOnly: bool, collectionId: string): set<Oid>
    requires collectionId == "" || ValidId(collectionId)
  {
    set k | k in notes && notes[k].owner == owner
      && (tagIds != [] ==> TaggedWithAny(notes[k], ParseIds(tagIds)))
      && (pinnedOnly ==> notes[k].pinned == Some(true))
      && (collectionId != "" ==> k in MemberIds(links, ToOid(collectionId)))
  }

  /** Every note of `r` is a stored note of the owner that passes each filter
      given: it carries one of the listed tags, it is pinned, and the collection
      has a membership row for it. */
  ghost predicate PassesFilters(r: seq<Note>, notes: map<Oid, Note>, links: map<Oid, Link>, owner: Oid,
                                tagIds: seq<string>, pinnedOnly: bool, collectionId: string)
    requires collectionId == "" || ValidId(collectionId)
  {
    forall i :: 0 <= i < |r| ==>
      && r[i] in notes.Values && r[i].owner == owner
      && (pinnedOnly ==> r[i].pinned == Some(true))
      && (tagIds != [] ==> TaggedWithAny(r[i], ParseIds(tagIds)))
      && (collectionId != "" ==> Linked(notes, links, ToOid(collectionId), r[i]))
  }

  /** The notes of the filter that have a text score for the search. */
  function Matching(notes: map<Oid, Note>, selected: set<Oid>, textScore: (string, Note) -> Option<nat>, text: string): set<Oid> {
    set k | k in selected && k in notes && textScore(text, notes[k]).Some?
  }

  /** The notes on the requested page of get_notes: with search text, the filtered
      notes that match it, ranked best match first; otherwise all filtered notes,
      ranked pinned first and most recently updated first. */
  function NoteWindow(notes: map<Oid, Note>, links: map<Oid, Link>, owner: Oid, skip: nat, limit: nat,
                      tagIds: seq<string>, searchText: string, pinnedOnly: bool, collectionId: string,
                      textScore: (string, Note) -> Option<nat>): set<Oid>
    requires collectionId == "" || ValidId(collectionId)
  {
    var selected := NoteFilter(notes, links, owner, tagIds, pinnedOnly, collectionId);
    if searchText != "" then Window(Matching(notes, selected, textScore, searchText), ScoreKey(notes, textScore, searchText), skip, limit)
    else Window(selected, PinnedKey(notes), skip, limit)
  }

  /** get_notes: one page of the owner's notes that pass every filter given; best
      match first when there is search text, otherwise pinned first and most
      recently updated first. The collection filter does not check who owns the
      collection, and an unparseable collection id yields no notes. */
  function GetNotes(notes: map<Oid, Note>, links: map<Oid, Link>, owner: Oid, skip: nat, limit: nat,
                    tagIds: seq<string>, searchText: string, pinnedOnly: bool, collectionId: string,
                    textScore: (string, Note) -> Option<nat>): (r: seq<Note>)
    requires limit >= 1
    ensures |r| <= limit
    ensures collectionId != "" && !ValidId(collectionId) ==> r == []
    ensures collectionId == "" || ValidId(collectionId) ==>
              && ListsWindow(r, notes, NoteWindow(notes, links, owner, skip, limit, tagIds, searchText, pinnedOnly, collectionId, textScore))
              && PassesFilters(r, notes, links, owner, tagIds, pinnedOnly, collectionId)
              && (tagIds != [] && ParseIds(tagIds) == [] ==> r == [])
              && (searchText != "" ==> BestMatchFirst(r, textScore, searchText))
              && (searchText == "" ==> PinnedThenRecent(r))
  {
    if collectionId != "" && !ValidId(collectionId) then []
    else
      var ids := NotePage(notes, links, owner, skip, limit, tagIds, searchText, pinnedOnly, collectionId, textScore);
      GetNotesFacts(notes, links, owner, tagIds, searchText, pinnedOnly, collectionId, textScore, ids);
      LookupListsWindow(notes, ids, NoteWindow(notes, links, owner, skip, limit, tagIds, searchText, pinnedOnly, collectionId, textScore));
      Lookup(notes, ids)
  }

  /** The ids of get_notes' page: the filtered notes that have a text score, best
      first, when there is search text; otherwise all filtered notes, pinned and
      most recent first. */
  function NotePage(notes: map<Oid, Note>, links: map<Oid, Link>, owner: Oid, skip: nat, limit: nat,
                    tagIds: seq<string>, searchText: string, pinnedOnly: bool, collectionId: string,
                    textScore: (string, Note) -> Option<nat>): (ids: seq<Oid>)
    requires collectionId == "" || ValidId(collectionId)
    ensures |ids| <= limit
    ensures |ids| == |NoteWindow(notes, links, owner, skip, limit, tagIds, searchText, pinnedOnly, collectionId, textScore)|
    ensures forall x :: x in ids <==> x in NoteWindow(notes, links, owner, skip, limit, tagIds, searchText, pinnedOnly, collectionId, textScore)
    ensures forall i :: 0 <= i < |ids| ==> ids[i] in NoteFilter(notes, links, owner, tagIds, pinnedOnly, collectionId)
    ensures searchText != "" ==>
              && (forall i :: 0 <= i < |ids| ==> ids[i] in notes && textScore(searchText, notes[ids[i]]).Some?)
              && Ascending(ids, ScoreKey(notes, textScore, searchText))
    ensures searchText == "" ==> Ascending(ids, PinnedKey(notes))
  {
    var selected := NoteFilter(notes, links, owner, tagIds, pinnedOnly, collectionId);
    if searchText != "" then ScorePage(notes, selected, textScore, searchText, skip, limit)
    else PinnedPage(notes, selected, skip, limit)
  }

  /** A page of the matching notes of `selected`, best match first. */
  function ScorePage(notes: map<Oid, Note>, selected: set<Oid>, textScore: (string, Note) -> Option<nat>, text: string,
                     skip: nat, limit: nat): (ids: seq<Oid>)
    ensures |ids| <= limit
    ensures |ids| == |Window(Matching(notes, selected, textScore, text), ScoreKey(notes, textScore, text), skip, limit)|
    ensures forall x :: x in ids <==> x in Window(Matching(notes, selected, textScore, text), ScoreKey(notes, textScore, text), skip, limit)
    ensures forall i :: 0 <= i < |ids| ==> ids[i] in selected && ids[i] in notes && textScore(text, notes[ids[i]]).Some?
    ensures Ascending(ids, ScoreKey(notes, textScore, text))
  {
    ScoreKeyTagged(notes, textScore, text);
    var ids := PageOf(Matching(notes, selected, textScore, text), ScoreKey(notes, textScore, text), skip, limit);
    assert forall i :: 0 <= i < |ids| ==> ids[i] in Matching(notes, selected, textScore, text);
    ids
  }

  /** What the page ids of get_notes say about the notes they name. */
  lemma GetNotesFacts(notes: map<Oid, Note>, links: map<Oid, Link>, owner: Oid,
                      tagIds: seq<string>, searchText: string, pinnedOnly: bool, collectionId: string,
                      textScore: (string, Note) -> Option<nat>, ids: seq<Oid>)
    requires collectionId == "" || ValidId(collectionId)
    requires forall i :: 0 <= i < |ids| ==> ids[i] in NoteFilter(notes, links, owner, tagIds, pinnedOnly, collectionId)
    requires searchText != "" ==>
               && (forall i :: 0 <= i < |ids| ==> ids[i] in notes && textScore(searchText, notes[ids[i]]).Some?)
               && Ascending(ids, ScoreKey(notes, textScore, searchText))
    requires searchText == "" ==> Ascending(ids, PinnedKey(notes))
    ensures forall i :: 0 <= i < |ids| ==> ids[i] in notes
    ensures PassesFilters(Lookup(notes, ids), notes, links, owner, tagIds, pinnedOnly, collectionId)
    ensures tagIds != [] && ParseIds(tagIds) == [] ==> ids == []
    ensures searchText != "" ==> BestMatchFirst(Lookup(notes, ids), textScore, searchText)
    ensures searchText == "" ==> PinnedThenRecent(Lookup(notes, ids))
  {
    assert ids == [] || ids[0] in NoteFilter(notes, links, owner, tagIds, pinnedOnly, collectionId);
    FilteredNotesPass(notes, links, owner, tagIds, pinnedOnly, collectionId, ids);
    if searchText != "" {
      ScoreOrder(notes, textScore, searchText, ids);
    } else {
      PinnedOrder(notes, ids);
    }
  }

  /** The notes the filter keeps pass every filter. */
  lemma FilteredNotesPass(notes: map<Oid, Note>, links: map<Oid, Link>, owner: Oid,
                          tagIds: seq<string>, pinnedOnly: bool, collectionId: string, ids: seq<Oid>)
    requires collectionId == "" || ValidId(collectionId)
    requires forall i :: 0 <= i < |ids| ==> ids[i] in NoteFilter(notes, links, owner, tagIds, pinnedOnly, collectionId)
    ensures forall i :: 0 <= i < |ids| ==> ids[i] in notes
    ensures PassesFilters(Lookup(notes, ids), notes, links, owner, tagIds, pinnedOnly, collectionId)
  {
    assert forall i :: 0 <= i < |ids| ==> ids[i] in notes;
    LookupStored(notes, ids);
    if collectionId != "" {
      MemberNotesLinked(notes, links, owner, tagIds, pinnedOnly, collectionId, ids);
    }
  }

  /** The notes the collection filter keeps each have a row in the collection. */
  lemma MemberNotesLinked(notes: map<Oid, Note>, links: map<Oid, Link>, owner: Oid,
                          tagIds: seq<string>, pinnedOnly: bool, collectionId: string, ids: seq<Oid>)
    requires ValidId(collectionId)
    requires forall i :: 0 <= i < |ids| ==> ids[i] in NoteFilter(notes, links, owner, tagIds, pinnedOnly, collectionId)
    ensures forall i :: 0 <= i < |ids| ==> ids[i] in notes && Linked(notes, links, ToOid(collectionId), notes[ids[i]])
  {
    forall i | 0 <= i < |ids| ensures ids[i] in notes && Linked(notes, links, ToOid(collectionId), notes[ids[i]]) {
      var k := ids[i];
      assert k in NoteFilter(notes, links, owner, tagIds, pinnedOnly, collectionId);
      assert k in MemberIds(links, ToOid(collectionId));
      assert RowsFor(links, ToOid(collectionId), k) != {};
    }
  }

  // ---------------------------------------------------------------------------
  // Tag lists and tag counters

  function Elems(s: seq<Oid>): set<Oid> {
    set x | x in s
  }

  /** update_note's removed_tags, as the set `$in` matches. */
  function Removed(before: seq<Oid>, after: seq<Oid>): set<Oid> {
    set t | t in before && t !in after
  }

  /** update_note's added_tags, as the set `$in` matches. */
  function Added(before: seq<Oid>, after: seq<Oid>): set<Oid> {
    set t | t in after && t !in before
  }

  lemma IncNoTags(tags: map<Oid, Tag>, d: int)
    ensures IncTagCounts(tags, {}, d) == tags
  {
  }

  /** A new note with a tag list, with each listed tag's counter raised by one,
      keeps every counter exact, whoever owns the tags. */
  lemma NewNoteKeepsTagCounts(tags: map<Oid, Tag>, notes: map<Oid, Note>, n: Note)
    requires TagCountsExact(tags, notes)
    requires n.id !in notes && n.tags.Some?
    ensures TagCountsExact(IncTagCounts(tags, Elems(n.tags.value), 1), notes[n.id := n])
  {
    forall t | t in tags
      ensures IncTagCounts(tags, Elems(n.tags.value), 1)[t].noteCount == TagUses(notes[n.id := n], t)
    {
      TagUsesStore(notes, n.id, n, t);
    }
  }

  /** Replacing a note's tag list, lowering the removed tags and raising the added
      ones, keeps every counter exact. */
  lemma RetagKeepsTagCounts(tags: map<Oid, Tag>, notes: map<Oid, Note>, k: Oid, m: Note)
    requires TagCountsExact(tags, notes)
    requires k in notes && notes[k].tags.Some? && m.tags.Some?
    ensures var before, after := notes[k].tags.value, m.tags.value;
            TagCountsExact(IncTagCounts(IncTagCounts(tags, Removed(before, after), -1), Added(before, after), 1),
                           notes[k := m])
  {
    var before, after := notes[k].tags.value, m.tags.value;
    var counted := IncTagCounts(IncTagCounts(tags, Removed(before, after), -1), Added(before, after), 1);
    forall t | t in tags ensures counted[t].noteCount == TagUses(notes[k := m], t) {
      TagUsesStore(notes, k, m, t);
    }
  }

  /** Setting a note's tags to null leaves the counters as they were, so each tag
      the note carried now counts one note too many. */
  lemma NullingTagsLeavesCountsStale(tags: map<Oid, Tag>, notes: map<Oid, Note>, k: Oid, m: Note, t: Oid)
    requires TagCountsExact(tags, notes)
    requires k in notes && t in tags && HasTag(notes[k], t) && m.tags.None?
    ensures tags[t].noteCount == TagUses(notes[k := m], t) + 1
    ensures !TagCountsExact(tags, notes[k := m])
  {
    TagUsesStore(notes, k, m, t);
  }

  /** Removing a note, lowering each tag it listed, keeps every counter exact. */
  lemma DeletedNoteKeepsTagCounts(tags: map<Oid, Tag>, notes: map<Oid, Note>, k: Oid)
    requires TagCountsExact(tags, notes) && k in notes
    ensures notes[k].tags.Some? ==> TagCountsExact(IncTagCounts(tags, Elems(notes[k].tags.value), -1), notes - {k})
    ensures notes[k].tags.None? ==> TagCountsExact(tags, notes - {k})
  {
    forall t | t in tags
      ensures notes[k].tags.Some? ==>
                IncTagCounts(tags, Elems(notes[k].tags.value), -1)[t].noteCount == TagUses(notes - {k}, t)
      ensures notes[k].tags.None? ==> tags[t].noteCount == TagUses(notes - {k}, t)
    {
      TagUsesRemove(notes, k, t);
    }
  }

  /** delete_note removes the note's membership rows but leaves the collection
      counters alone: a collection that held the note counts one note too many. */
  lemma DeletedNoteLeavesCollectionCountsStale(cs: map<Oid, Collection>, links: map<Oid, Link>, k: Oid, c: Oid)
    requires CollectionCountsExact(cs, links) && LinksUnique(links)
    requires c in cs && RowsFor(links, c, k) != {}
    ensures cs[c].noteCount == RowCount(DropLinksOfNote(links, k), c) + 1
    ensures !CollectionCountsExact(cs, DropLinksOfNote(links, k))
  {
    var r :| r in RowsFor(links, c, k);
    RowsForSingle(links, c, k, r);
    RowCountDropNote(links, k, c);
  }

  // ---------------------------------------------------------------------------
  // Writes

  /** Whether a note id is unused by the store: no note, membership row or grant names it. */
  ghost predicate UnusedNoteId(notes: map<Oid, Note>, links: map<Oid, Link>, shares: map<Oid, Share>, id: Oid) {
    && id !in notes
    && (forall r :: r in links ==> links[r].note != id)
    && (forall g :: g in shares ==> shares[g].note != id)
  }

  /** The document create_note inserts. */
  function NewNote(request: NoteCreate, owner: Oid, id: Oid, now: Time): (n: Note)
    ensures n.id == id && n.owner == owner && n.createdAt == now && n.updatedAt == now
    ensures n.tags == Some(ParseIds(request.tags))
    ensures forall t :: HasTag(n, t) <==> exists i :: 0 <= i < |request.tags| && ValidId(request.tags[i]) && ToOid(request.tags[i]) == t
  {
    Note(id, owner, Some(request.title), Some(request.content), Some(request.format),
         Some(request.pinned), Some(ParseIds(request.tags)), request.color, Some(request.metadata), now, now)
  }

  /** Inserting a new note and raising its tags' counters keeps the store consistent. */
  lemma CreateNoteKeepsConsistency(users: map<Oid, User>, notes: map<Oid, Note>, tags: map<Oid, Tag>,
                                   cs: map<Oid, Collection>, links: map<Oid, Link>, shares: map<Oid, Share>, n: Note)
    requires StoreConsistent(users, notes, tags, cs, links, shares)
    requires UnusedNoteId(notes, links, shares, n.id) && n.tags.Some?
    ensures StoreConsistent(users, notes[n.id := n], IncTagCounts(tags, Elems(n.tags.value), 1), cs, links, shares)
  {
    NewNoteKeepsTagCounts(tags, notes, n);
    var tags' := IncTagCounts(tags, Elems(n.tags.value), 1);
    assert forall t :: t in tags' ==> tags'[t].id == tags[t].id && tags'[t].owner == tags[t].owner && tags'[t].name == tags[t].name;
  }

  method CreateNote(db: Store, request: NoteCreate, owner: Oid, id: Oid, now: Time) returns (n: Note)
    requires UnusedNoteId(db.notes, db.links, db.shares, id)
    modifies db
    ensures n == NewNote(request, owner, id, now)
    ensures db.notes == old(db.notes)[id := n]
    ensures db.tags == IncTagCounts(old(db.tags), Elems(n.tags.value), 1)
    ensures db.users == old(db.users) && db.collections == old(db.collections)
    ensures db.links == old(db.links) && db.shares == old(db.shares)
    ensures old(db.Consistent()) ==> db.Consistent()
  {
    var tagIds: seq<Oid> := [];
    if request.tags != [] {
      tagIds := ParseIds(request.tags);
    }
    n := Note(id, owner, Some(request.title), Some(request.content), Some(request.format),
              Some(request.pinned), Some(tagIds), request.color, Some(request.metadata), now, now);
    assert n == NewNote(request, owner, id, now);
    InsertNote(db, n);
  }

  /** The writes of create_note: the insert, then one update_many raising the
      counters of the listed tags when the list is not empty. */
  method InsertNote(db: Store, n: Note)
    requires UnusedNoteId(db.notes, db.links, db.shares, n.id) && n.tags.Some?
    modifies db
    ensures db.notes == old(db.notes)[n.id := n]
    ensures db.tags == IncTagCounts(old(db.tags), Elems(n.tags.value), 1)
    ensures db.users == old(db.users) && db.collections == old(db.collections)
    ensures db.links == old(db.links) && db.shares == old(db.shares)
    ensures old(db.Consistent()) ==> db.Consistent()
  {
    ghost var wasConsistent := db.Consistent();
    ghost var notes0, tags0 := db.notes, db.tags;
    db.notes := db.notes[n.id := n];
    if n.tags.value != [] {
      db.tags := IncTagCounts(db.tags, Elems(n.tags.value), 1);
    } else {
      assert Elems(n.tags.value) == {};
      IncNoTags(db.tags, 1);
    }
    if wasConsistent {
      CreateNoteKeepsConsistency(db.users, notes0, tags0, db.collections, db.links, db.shares, n);
    }
  }

  /** `$set` of the fields an update request supplies, plus updated_at; the tag
      strings are stored as the ids they parse to. */
  function PatchNote(n: Note, u: NoteUpdate, now: Time): (r: Note)
    ensures r.id == n.id && r.owner == n.owner && r.createdAt == n.createdAt && r.updatedAt == now
    ensures u.tags.Keep? ==> r.tags == n.tags
    ensures u.tags.SetNull? ==> r.tags.None?
    ensures u.tags.SetTo? ==> r.tags == Some(ParseIds(u.tags.value))
  {
    n.(title := Apply(u.title, n.title), content := Apply(u.content, n.content),
       format := Apply(u.format, n.format), pinned := Apply(u.pinned, n.pinned),
       tags := match u.tags case Keep => n.tags case SetNull => None case SetTo(l) => Some(ParseIds(l)),
       color := Apply(u.color, n.color), metadata := Apply(u.metadata, n.metadata), updatedAt := now)
  }

  /** update_note's counter updates: tags only in the old list lose one, tags only
      in the new list gain one. */
  function Retag(tags: map<Oid, Tag>, before: seq<Oid>, after: seq<Oid>): map<Oid, Tag> {
    IncTagCounts(IncTagCounts(tags, Removed(before, after), -1), Added(before, after), 1)
  }

  /** Each counter moves by one at most: up for a tag only the new list holds,
      down for a tag only the old list holds. */
  lemma RetagMovesByOne(tags: map<Oid, Tag>, before: seq<Oid>, after: seq<Oid>)
    ensures Retag(tags, before, after).Keys == tags.Keys
    ensures forall t :: t in tags ==>
              Retag(tags, before, after)[t] == tags[t].(noteCount := tags[t].noteCount
                                + (if t in after && t !in before then 1 else 0)
                                - (if t in before && t !in after then 1 else 0))
  {
  }

  /** The counters after update_note. */
  function UpdatedNoteTags(tags: map<Oid, Tag>, n: Note, u: NoteUpdate): map<Oid, Tag>
    requires u.tags.SetTo? ==> n.tags.Some?
  {
    if u.tags.SetTo? then Retag(tags, n.tags.value, ParseIds(u.tags.value)) else tags
  }

  /** An update that does not null the tag list keeps the store consistent. */
  lemma UpdateNoteKeepsConsistency(users: map<Oid, User>, notes: map<Oid, Note>, tags: map<Oid, Tag>,
                                   cs: map<Oid, Collection>, links: map<Oid, Link>, shares: map<Oid, Share>,
                                   k: Oid, u: NoteUpdate, now: Time)
    requires StoreConsistent(users, notes, tags, cs, links, shares)
    requires k in notes && !u.tags.SetNull? && (u.tags.SetTo? ==> notes[k].tags.Some?)
    ensures StoreConsistent(users, notes[k := PatchNote(notes[k], u, now)], UpdatedNoteTags(tags, notes[k], u),
                            cs, links, shares)
  {
    var m := PatchNote(notes[k], u, now);
    var tags' := UpdatedNoteTags(tags, notes[k], u);
    if u.tags.SetTo? {
      RetagKeepsTagCounts(tags, notes, k, m);
      RetagMovesByOne(tags, notes[k].tags.value, ParseIds(u.tags.value));
    } else {
      forall t | t in tags ensures tags[t].noteCount == TagUses(notes[k := m], t) {
        TagUsesStore(notes, k, m, t);
      }
    }
    assert forall t :: t in tags' ==> tags'[t].id == tags[t].id && tags'[t].owner == tags[t].owner && tags'[t].name == tags[t].name;
  }

  /** update_note with a null tag list leaves counters standing for tags no note
      carries any more. */
  lemma UpdateNoteNullingTagsBreaksCounts(tags: map<Oid, Tag>, notes: map<Oid, Note>, k: Oid, u: NoteUpdate, now: Time, t: Oid)
    requires TagCountsExact(tags, notes)
    requires k in notes && t in tags && HasTag(notes[k], t) && u.tags.SetNull?
    ensures !TagCountsExact(UpdatedNoteTags(tags, notes[k], u), notes[k := PatchNote(notes[k], u, now)])
  {
    NullingTagsLeavesCountsStale(tags, notes, k, PatchNote(notes[k], u, now), t);
  }

  /** update_note's two update_many calls, each skipped when its list is empty. */
  method RetagCounters(db: Store, before: seq<Oid>, after: seq<Oid>)
    modifies db
    ensures db.tags == Retag(old(db.tags), before, after)
    ensures db.users == old(db.users) && db.notes == old(db.notes) && db.collections == old(db.collections)
    ensures db.links == old(db.links) && db.shares == old(db.shares)
  {
    var removed, added := Removed(before, after), Added(before, after);
    if removed != {} {
      db.tags := IncTagCounts(db.tags, removed, -1);
    } else {
      IncNoTags(db.tags, -1);
    }
    if added != {} {
      db.tags := IncTagCounts(db.tags, added, 1);
    } else {
      IncNoTags(db.tags, 1);
    }
  }

  method UpdateNote(db: Store, noteId: string, update: NoteUpdate, owner: Oid, now: Time)
    returns (r: Result<Option<Note>>)
    modifies db
    ensures r == Ok(None) <==> !OwnsNote(old(db.notes), noteId, owner)
    ensures r.Err? <==> OwnsNote(old(db.notes), noteId, owner) && update.tags.SetTo? && old(db.notes)[ToOid(noteId)].tags.None?
    ensures r.Err? ==> r.error == TypeError
    ensures !(r.Ok? && r.value.Some?) ==> unchanged(db)
    ensures r.Ok? && r.value.Some? ==>
              var k := ToOid(noteId);
              && (update.tags.SetTo? ==> old(db.notes)[k].tags.Some?)
              && db.notes == old(db.notes)[k := PatchNote(old(db.notes)[k], update, now)]
              && r.value.value == db.notes[k]
              && db.tags == UpdatedNoteTags(old(db.tags), old(db.notes)[k], update)
    ensures db.users == old(db.users) && db.collections == old(db.collections)
    ensures db.links == old(db.links) && db.shares == old(db.shares)
    ensures old(db.Consistent()) && !update.tags.SetNull? ==> db.Consistent()
  {
    if !ValidId(noteId) {
      return Ok(None);
    }
    var found := GetNoteById(db.notes, noteId, Some(owner));
    if found.None? {
      return Ok(None);
    }
    ghost var wasConsistent := db.Consistent();
    ghost var notes0, tags0 := db.notes, db.tags;
    var k := ToOid(noteId);
    var note := found.value;
    if update.tags.SetTo? {
      if note.tags.None? {
        // the stored list is null and cannot be iterated
        return Err(TypeError);
      }
      RetagCounters(db, note.tags.value, ParseIds(update.tags.value));
    }
    var patched := PatchNote(note, update, now);
    db.notes := db.notes[k := patched];
    r := Ok(Some(patched));
    if wasConsistent && !update.tags.SetNull? {
      UpdateNoteKeepsConsistency(db.users, notes0, tags0, db.collections, db.links, db.shares, k, update, now);
    }
  }

  /** delete_note's counter update: each tag of a non-empty stored list loses one. */
  function UntagDeleted(tags: map<Oid, Tag>, n: Note): map<Oid, Tag> {
    if n.tags.Some? && n.tags.value != [] then IncTagCounts(tags, Elems(n.tags.value), -1) else tags
  }

  /** Every condition but the collection counters survives delete_note. */
  ghost predicate AllButCollectionCounts(users: map<Oid, User>, notes: map<Oid, Note>, tags: map<Oid, Tag>,
                                         cs: map<Oid, Collection>, links: map<Oid, Link>, shares: map<Oid, Share>) {
    && UsersKeyed(users) && NotesKeyed(notes) && TagsKeyed(tags)
    && CollectionsKeyed(cs) && LinksKeyed(links) && SharesKeyed(shares)
    && TagCountsExact(tags, notes)
    && OneDefaultPerOwner(cs)
    && LinksUnique(links)
    && LinksWithinOwner(cs, notes, links)
    && GrantsUnique(shares)
    && GrantsNotToOwner(shares, notes)
    && TagNamesUnique(tags)
    && EmailsUnique(users)
    && UsernamesUnique(users)
  }

  /** Lowering the deleted note's tags keeps the tags keyed, their names unique and
      their counters exact for the remaining notes. */
  lemma UntagDeletedKeepsTags(tags: map<Oid, Tag>, notes: map<Oid, Note>, k: Oid)
    requires TagsKeyed(tags) && TagNamesUnique(tags) && TagCountsExact(tags, notes) && k in notes
    ensures var tags' := UntagDeleted(tags, notes[k]);
            TagsKeyed(tags') && TagNamesUnique(tags') && TagCountsExact(tags', notes - {k})
  {
    var n := notes[k];
    var tags' := UntagDeleted(tags, n);
    DeletedNoteKeepsTagCounts(tags, notes, k);
    if n.tags.Some? && n.tags.value == [] {
      assert Elems(n.tags.value) == {};
      IncNoTags(tags, -1);
    }
    assert forall t :: t in tags' ==> tags'[t].id == tags[t].id && tags'[t].owner == tags[t].owner && tags'[t].name == tags[t].name;
  }

  /** Once the note's rows are gone, every remaining row still joins a stored
      collection and a stored note of one owner. */
  lemma DroppedNoteKeepsOwners(cs: map<Oid, Collection>, notes: map<Oid, Note>, links: map<Oid, Link>, k: Oid)
    requires LinksWithinOwner(cs, notes, links)
    ensures LinksWithinOwner(cs, notes - {k}, DropLinksOfNote(links, k))
  {
    var links' := DropLinksOfNote(links, k);
    forall r | r in links' ensures links'[r].note in notes - {k} {
      assert links'[r] == links[r];
    }
  }

  /** Deleting a note with its rows and grants keeps every condition except the
      collection counters, which go stale for every collection that held it. */
  lemma DeleteNoteEffect(users: map<Oid, User>, notes: map<Oid, Note>, tags: map<Oid, Tag>,
                         cs: map<Oid, Collection>, links: map<Oid, Link>, shares: map<Oid, Share>, k: Oid)
    requires StoreConsistent(users, notes, tags, cs, links, shares) && k in notes
    ensures AllButCollectionCounts(users, notes - {k}, UntagDeleted(tags, notes[k]), cs,
                                   DropLinksOfNote(links, k), DropGrantsOfNote(shares, k))
    ensures (exists c :: c in cs && RowsFor(links, c, k) != {}) ==> !CollectionCountsExact(cs, DropLinksOfNote(links, k))
  {
    UntagDeletedKeepsTags(tags, notes, k);
    DroppedNoteKeepsOwners(cs, notes, links, k);
    if exists c :: c in cs && RowsFor(links, c, k) != {} {
      var c :| c in cs && RowsFor(links, c, k) != {};
      DeletedNoteLeavesCollectionCountsStale(cs, links, k, c);
    }
  }

  method DeleteNote(db: Store, noteId: string, owner: Oid) returns (ok: bool)
    modifies db
    ensures ok <==> OwnsNote(old(db.notes), noteId, owner)
    ensures !ok ==> unchanged(db)
    ensures ok ==>
              var k := ToOid(noteId);
              && db.notes == old(db.notes) - {k}
              && db.tags == UntagDeleted(old(db.tags), old(db.notes)[k])
              && db.links == DropLinksOfNote(old(db.links), k)
              && db.shares == DropGrantsOfNote(old(db.shares), k)
    ensures db.users == old(db.users) && db.collections == old(db.collections)
    ensures old(db.Consistent()) ==> AllButCollectionCounts(db.users, db.notes, db.tags, db.collections, db.links, db.shares)
    ensures ok && old(db.Consistent()) && (exists c :: c in db.collections && RowsFor(old(db.links), c, ToOid(noteId)) != {}) ==>
              !CollectionCountsExact(db.collections, db.links)
  {
    if !ValidId(noteId) {
      return false;
    }
    var found := GetNoteById(db.notes, noteId, Some(owner));
    if found.None? {
      return false;
    }
    RemoveNote(db, ToOid(noteId));
    ok := true;
  }

  /** The writes of delete_note for a note that exists: the note, its tag counts,
      its membership rows and its grants. */
  method RemoveNote(db: Store, k: Oid)
    requires k in db.notes
    modifies db
    ensures db.notes == old(db.notes) - {k}
    ensures db.tags == UntagDeleted(old(db.tags), old(db.notes)[k])
    ensures db.links == DropLinksOfNote(old(db.links), k)
    ensures db.shares == DropGrantsOfNote(old(db.shares), k)
    ensures db.users == old(db.users) && db.collections == old(db.collections)
    ensures old(db.Consistent()) ==> AllButCollectionCounts(db.users, db.notes, db.tags, db.collections, db.links, db.shares)
    ensures old(db.Consistent()) && (exists c :: c in db.collections && RowsFor(old(db.links), c, k) != {}) ==>
              !CollectionCountsExact(db.collections, db.links)
  {
    ghost var wasConsistent := db.Consistent();
    ghost var notes0, tags0, links0, shares0 := db.notes, db.tags, db.links, db.shares;
    var note := db.notes[k];
    db.notes := db.notes - {k};
    if note.tags.Some? && note.tags.value != [] {
      db.tags := IncTagCounts(db.tags, Elems(note.tags.value), -1);
    }
    db.links := DropLinksOfNote(db.links, k);
    db.shares := DropGrantsOfNote(db.shares, k);
    if wasConsistent {
      DeleteNoteEffect(db.users, notes0, tags0, db.collections, links0, shares0, k);
    }
  }

  // ---------------------------------------------------------------------------
  // get_shared_notes

  /** A note shared with the user, with the permission of its grant. */
  datatype SharedNote = SharedNote(note: Note, permission: Option<Permission>)

  function NotesOf(r: seq<SharedNote>): (notes: seq<Note>)
    ensures |notes| == |r| && forall i :: 0 <= i < |r| ==> notes[i] == r[i].note
  {
    seq(|r|, i requires 0 <= i < |r| => r[i].note)
  }

  function GrantsOf(shares: map<Oid, Share>, user: Oid): set<Oid> {
    set g | g in shares && shares[g].user == user
  }

  /** `shared_notes.find({"user_id": user}).to_list(length=1000)`. */
  function SharedRecords(shares: map<Oid, Share>, user: Oid): (r: seq<Oid>)
    ensures |r| <= 1000
    ensures forall i :: 0 <= i < |r| ==> r[i] in shares && shares[r[i]].user == user
    ensures r == [] <==> GrantsOf(shares, user) == {}
    ensures |GrantsOf(shares, user)| <= 1000 ==> forall g :: g in GrantsOf(shares, user) ==> g in r
  {
    var r := TakeNatural(GrantsOf(shares, user), 1000);
    assert forall i :: 0 <= i < |r| ==> r[i] in r;
    assert GrantsOf(shares, user) != {} ==> |r| > 0;
    r
  }

  /** The notes named by the records. */
  function SharedNoteIds(shares: map<Oid, Share>, records: seq<Oid>): set<Oid>
    requires forall i :: 0 <= i < |records| ==> records[i] in shares
  {
    set i | 0 <= i < |records| :: shares[records[i]].note
  }

  /** The stored notes the user's records name. */
  function SharedSet(notes: map<Oid, Note>, shares: map<Oid, Share>, user: Oid): set<Oid> {
    var records := SharedRecords(shares, user);
    set k | k in notes && k in SharedNoteIds(shares, records)
  }

  /** The notes on the requested page of get_shared_notes: the shared notes ranked
      most recently updated first. */
  function SharedWindow(notes: map<Oid, Note>, shares: map<Oid, Share>, user: Oid, skip: nat, limit: nat): set<Oid> {
    Window(SharedSet(notes, shares, user), RecentKey(notes), skip, limit)
  }

  /** The ids of the page of shared notes, most recently updated first. */
  function SharedPage(notes: map<Oid, Note>, shares: map<Oid, Share>, user: Oid, skip: nat, limit: nat): (ids: seq<Oid>)
    ensures |ids| <= limit
    ensures |ids| == |SharedWindow(notes, shares, user, skip, limit)|
    ensures forall x :: x in ids <==> x in SharedWindow(notes, shares, user, skip, limit)
    ensures forall i :: 0 <= i < |ids| ==> ids[i] in notes && ids[i] in SharedNoteIds(shares, SharedRecords(shares, user))
    ensures Ascending(ids, RecentKey(notes))
  {
    RecentKeyTagged(notes);
    var ids := PageOf(SharedSet(notes, shares, user), RecentKey(notes), skip, limit);
    assert forall i :: 0 <= i < |ids| ==> ids[i] in SharedSet(notes, shares, user);
    ids
  }

  /** The position of the first record for note `n`, or |records| when none is. */
  function FirstRecordFor(shares: map<Oid, Share>, records: seq<Oid>, n: Oid): (j: nat)
    requires forall i :: 0 <= i < |records| ==> records[i] in shares
    ensures j <= |records|
    ensures j < |records| ==> shares[records[j]].note == n
    ensures forall i :: 0 <= i < j ==> shares[records[i]].note != n
    ensures n in SharedNoteIds(shares, records) ==> j < |records|
    decreases |records|
  {
    if records == [] then 0
    else if shares[records[0]].note == n then 0
    else
      SharedNoteIdsTail(shares, records, n);
      1 + FirstRecordFor(shares, records[1..], n)
  }

  lemma SharedNoteIdsTail(shares: map<Oid, Share>, records: seq<Oid>, n: Oid)
    requires forall i :: 0 <= i < |records| ==> records[i] in shares
    requires records != [] && shares[records[0]].note != n
    ensures n in SharedNoteIds(shares, records) ==> n in SharedNoteIds(shares, records[1..])
  {
    if n in SharedNoteIds(shares, records) {
      var i :| 0 <= i < |records| && shares[records[i]].note == n;
      assert records[1..][i - 1] == records[i];
    }
  }

  /** The inner loop of get_shared_notes: the first record naming note `n`. */
  method FindRecord(shares: map<Oid, Share>, records: seq<Oid>, n: Oid) returns (j: nat)
    requires forall i :: 0 <= i < |records| ==> records[i] in shares
    ensures j == FirstRecordFor(shares, records, n)
  {
    j := 0;
    while j < |records| && shares[records[j]].note != n
      invariant 0 <= j <= |records|
      invariant forall y :: 0 <= y < j ==> shares[records[y]].note != n
    {
      j := j + 1;
    }
  }

  /** The permission of the first of the records that names note `n`. */
  function FirstPermission(shares: map<Oid, Share>, records: seq<Oid>, n: Oid): Option<Permission>
    requires forall i :: 0 <= i < |records| ==> records[i] in shares
    requires n in SharedNoteIds(shares, records)
  {
    shares[records[FirstRecordFor(shares, records, n)]].permission
  }

  /** get_shared_notes: the page of notes the user holds grants for, most recently
      updated first, each with the permission of the first of the user's records
      for it. */
  method GetSharedNotes(db: Store, user: Oid, skip: nat, limit: nat) returns (r: seq<SharedNote>)
    ensures |r| <= limit
    ensures GrantsOf(db.shares, user) == {} ==> r == []
    ensures MostRecentFirst(NotesOf(r))
    ensures GrantsOf(db.shares, user) != {} ==>
              var records := SharedRecords(db.shares, user);
              var ids := SharedPage(db.notes, db.shares, user, skip, limit);
              && NotesOf(r) == Lookup(db.notes, ids)
              && ListsWindow(NotesOf(r), db.notes, SharedWindow(db.notes, db.shares, user, skip, limit))
              && forall i :: 0 <= i < |r| ==> r[i].permission == FirstPermission(db.shares, records, ids[i])
  {
    var shares := db.shares;
    var records := SharedRecords(shares, user);
    if records == [] {
      return [];
    }
    var ids := SharedPage(db.notes, shares, user, skip, limit);
    var notes := Lookup(db.notes, ids);
    RecentOrder(db.notes, ids);
    LookupListsWindow(db.notes, ids, SharedWindow(db.notes, shares, user, skip, limit));
    r := AttachPermissions(shares, records, notes, ids);
  }

  /** The loop of get_shared_notes: pairs each note of the page with the
      permission of the first record naming it. */
  method AttachPermissions(shares: map<Oid, Share>, records: seq<Oid>, notes: seq<Note>, ids: seq<Oid>)
    returns (r: seq<SharedNote>)
    requires forall i :: 0 <= i < |records| ==> records[i] in shares
    requires |notes| == |ids|
    requires forall i :: 0 <= i < |ids| ==> ids[i] in SharedNoteIds(shares, records)
    ensures NotesOf(r) == notes
    ensures forall x :: 0 <= x < |r| ==> r[x].permission == FirstPermission(shares, records, ids[x])
  {
    r := [];
    var i := 0;
    while i < |notes|
      invariant 0 <= i <= |notes|
      invariant |r| == i
      invariant forall x :: 0 <= x < i ==> r[x].note == notes[x]
      invariant forall x :: 0 <= x < i ==> r[x].permission == FirstPermission(shares, records, ids[x])
    {
      var j := FindRecord(shares, records, ids[i]);
      r := r + [SharedNote(notes[i], shares[records[j]].permission)];
      i := i + 1;
    }
    assert NotesOf(r) == notes;
  }

  /** With one grant per (note, user), the permission attached to a shared note is
      that of the user's grant for the note. */
  lemma SharedPermissionIsTheGrant(shares: map<Oid, Share>, user: Oid, n: Oid, g: Oid)
    requires GrantsUnique(shares)
    requires g in shares && shares[g].note == n && shares[g].user == user
    requires n in SharedNoteIds(shares, SharedRecords(shares, user))
    ensures var records := SharedRecords(shares, user);
            records[FirstRecordFor(shares, records, n)] == g
            && FirstPermission(shares, records, n) == shares[g].permission
  {
    var records := SharedRecords(shares, user);
    var j := FirstRecordFor(shares, records, n);
    assert shares[records[j]].note == n && shares[records[j]].user == user;
  }
}
