/** app/crud/collection.py: collections, their membership rows (collection_notes)
 *  and the note_count each collection keeps of its rows.
 */
module CollectionCrud {
  import opened Ids
  import opened Maybe
  import opened Documents
  import opened Order
  import opened Sorts
  import opened Consistency
  import opened Database

  // ---------------------------------------------------------------------------
  // Reads

  /** get_collection_by_id: the collection stored under the id, and only when it
      belongs to `owner` if an owner is given. */
  function GetCollectionById(cs: map<Oid, Collection>, collectionId: string, owner: Option<Oid>): (r: Option<Collection>)
    ensures r.Some? ==> ValidId(collectionId) && ToOid(collectionId) in cs && r.value == cs[ToOid(collectionId)]
    ensures r.Some? && owner.Some? ==> r.value.owner == owner.value
    ensures ValidId(collectionId) && ToOid(collectionId) in cs && (owner.None? || cs[ToOid(collectionId)].owner == owner.value)
            ==> r.Some?
  {
    if !ValidId(collectionId) then None
    else
      var k := ToOid(collectionId);
      if k in cs && (owner.None? || cs[k].owner == owner.value) then Some(cs[k]) else None
  }

  /** The owned lookup every write below starts with. */
  predicate Owns(cs: map<Oid, Collection>, collectionId: string, owner: Oid) {
    GetCollectionById(cs, collectionId, Some(owner)).Some?
  }

  function OwnedCollections(cs: map<Oid, Collection>, owner: Oid): set<Oid> {
    set k | k in cs && cs[k].owner == owner
  }

  /** The owner's collections on the requested page of get_collections. */
  function CollectionWindow(cs: map<Oid, Collection>, owner: Oid, skip: nat, limit: nat): set<Oid> {
    Window(OwnedCollections(cs, owner), CollectionKey(cs), skip, limit)
  }

  /** get_collections: one page of the owner's collections, defaults first, then by name. */
  function GetCollections(cs: map<Oid, Collection>, owner: Oid, skip: nat, limit: nat): (r: seq<Collection>)
    requires limit >= 1
    ensures |r| == PageSize(|OwnedCollections(cs, owner)|, skip, limit)
    ensures ListsWindow(r, cs, CollectionWindow(cs, owner, skip, limit))
    ensures forall i :: 0 <= i < |r| ==> r[i] in cs.Values && r[i].owner == owner
    ensures DefaultsThenByName(r)
  {
    CollectionKeyTagged(cs);
    var ids := PageOf(OwnedCollections(cs, owner), CollectionKey(cs), skip, limit);
    CollectionOrder(cs, ids);
    LookupStored(cs, ids);
    LookupListsWindow(cs, ids, CollectionWindow(cs, owner, skip, limit));
    Lookup(cs, ids)
  }

  datatype CollectionWithNotes = CollectionWithNotes(collection: Collection, notes: seq<Note>)

  /** The owner's notes among the collection's first 1000 members. */
  function MemberNotes(notes: map<Oid, Note>, members: seq<Oid>, owner: Oid): set<Oid> {
    set k | k in notes && notes[k].owner == owner && k in members
  }

  /** The notes on the requested page of get_collection_with_notes: the owner's
      notes among the collection's first 1000 members, pinned first, most
      recently updated first. */
  function MemberWindow(links: map<Oid, Link>, notes: map<Oid, Note>, c: Oid, owner: Oid, skip: nat, limit: nat): set<Oid> {
    Window(MemberNotes(notes, MemberIds(links, c), owner), PinnedKey(notes), skip, limit)
  }

  /** Some note of the page has a null tag list. */
  predicate SomeUntagged(notes: map<Oid, Note>, W: set<Oid>) {
    exists k :: k in W && k in notes && notes[k].tags.None?
  }

  /** get_collection_with_notes: the owned collection with one page of its member
      notes, pinned first, most recently updated first. Converting each returned
      note's tag list iterates it, which raises TypeError when it is null. */
  function GetCollectionWithNotes(cs: map<Oid, Collection>, links: map<Oid, Link>, notes: map<Oid, Note>,
                                  collectionId: string, owner: Oid, skip: nat, limit: nat)
    : (r: Result<Option<CollectionWithNotes>>)
    requires limit >= 1
    ensures r == Ok(None) <==> !Owns(cs, collectionId, owner)
    ensures r.Err? <==>
              Owns(cs, collectionId, owner) && SomeUntagged(notes, MemberWindow(links, notes, ToOid(collectionId), owner, skip, limit))
    ensures r.Err? ==> r.error == TypeError
    ensures r.Ok? && r.value.Some? ==>
              var w := r.value.value;
              && w.collection == cs[ToOid(collectionId)] && w.collection.owner == owner
              && ListsWindow(w.notes, notes, MemberWindow(links, notes, ToOid(collectionId), owner, skip, limit))
              && PinnedThenRecent(w.notes)
              && forall i :: 0 <= i < |w.notes| ==>
                   && w.notes[i].owner == owner && w.notes[i].tags.Some?
                   && Linked(notes, links, ToOid(collectionId), w.notes[i])
    ensures Owns(cs, collectionId, owner) && RowsOf(links, ToOid(collectionId)) == {} ==>
              r == Ok(Some(CollectionWithNotes(cs[ToOid(collectionId)], [])))
  {
    match GetCollectionById(cs, collectionId, Some(owner))
    case None => Ok(None)
    case Some(coll) =>
      match MembersPage(links, notes, ToOid(collectionId), owner, skip, limit)
      case Ok(page) => Ok(Some(CollectionWithNotes(coll, page)))
      case Err(e) => Err(e)
  }

  /** The notes part of get_collection_with_notes: the page of the owner's notes
      among the collection's members, or TypeError when one of them has a null tag
      list. */
  function MembersPage(links: map<Oid, Link>, notes: map<Oid, Note>, c: Oid, owner: Oid, skip: nat, limit: nat)
    : (r: Result<seq<Note>>)
    ensures r.Err? <==> SomeUntagged(notes, MemberWindow(links, notes, c, owner, skip, limit))
    ensures r.Err? ==> r.error == TypeError
    ensures r.Ok? ==>
              && ListsWindow(r.value, notes, MemberWindow(links, notes, c, owner, skip, limit))
              && PinnedThenRecent(r.value)
              && forall i :: 0 <= i < |r.value| ==>
                   && r.value[i].owner == owner && r.value[i].tags.Some?
                   && Linked(notes, links, c, r.value[i])
    ensures RowsOf(links, c) == {} ==> r == Ok([])
  {
    var members := MemberIds(links, c);
    var page := MemberPage(notes, members, owner, skip, limit);
    MemberPageLinked(links, notes, c, owner, skip, limit, page);
    MembersPageFacts(links, notes, c, owner, skip, limit, page);
    if members == [] then Ok([])
    else if !AllTagged(page) then Err(TypeError)
    else Ok(page)
  }

  /** What the page of member notes says about the collection's rows. */
  lemma MembersPageFacts(links: map<Oid, Link>, notes: map<Oid, Note>, c: Oid, owner: Oid, skip: nat, limit: nat,
                         page: seq<Note>)
    requires page == MemberPage(notes, MemberIds(links, c), owner, skip, limit)
    ensures MemberIds(links, c) == [] ==> page == [] && !SomeUntagged(notes, MemberWindow(links, notes, c, owner, skip, limit))
    ensures !AllTagged(page) <==> SomeUntagged(notes, MemberWindow(links, notes, c, owner, skip, limit))
    ensures ListsWindow(page, notes, MemberWindow(links, notes, c, owner, skip, limit))
  {
    var members := MemberIds(links, c);
    var W := MemberWindow(links, notes, c, owner, skip, limit);
    assert ListsWindow(page, notes, W);
    UntaggedOnPage(notes, page, W);
    if members == [] {
      EmptyWindow(MemberNotes(notes, members, owner), PinnedKey(notes), skip, limit);
    }
  }

  /** Every note of the page of member notes is the owner's and has a row in the
      collection. */
  lemma MemberPageLinked(links: map<Oid, Link>, notes: map<Oid, Note>, c: Oid, owner: Oid, skip: nat, limit: nat,
                         page: seq<Note>)
    requires page == MemberPage(notes, MemberIds(links, c), owner, skip, limit)
    ensures forall i :: 0 <= i < |page| ==> page[i].owner == owner && Linked(notes, links, c, page[i])
  {
    var members := MemberIds(links, c);
    assert forall i :: 0 <= i < |page| ==> exists k :: k in notes && k in members && notes[k] == page[i];
    PageNotesHaveRows(notes, links, c, members, page);
  }

  /** Every note of the page has a tag list. */
  predicate AllTagged(page: seq<Note>) {
    forall i :: 0 <= i < |page| ==> page[i].tags.Some?
  }

  /** A page listing a window has an untagged note exactly when the window does. */
  lemma UntaggedOnPage(notes: map<Oid, Note>, page: seq<Note>, W: set<Oid>)
    requires ListsWindow(page, notes, W)
    ensures !AllTagged(page) <==> SomeUntagged(notes, W)
  {
    if !AllTagged(page) {
      var i :| 0 <= i < |page| && page[i].tags.None?;
      assert page[i] in DocsOf(notes, W);
    }
    if SomeUntagged(notes, W) {
      var k :| k in W && k in notes && notes[k].tags.None?;
      assert notes[k] in page;
    }
  }

  /** Each note of a page drawn from the collection's members has a row in it. */
  lemma PageNotesHaveRows(notes: map<Oid, Note>, links: map<Oid, Link>, c: Oid, members: seq<Oid>, page: seq<Note>)
    requires forall n :: n in members ==> RowsFor(links, c, n) != {}
    requires forall i :: 0 <= i < |page| ==> exists k :: k in notes && k in members && notes[k] == page[i]
    ensures forall i :: 0 <= i < |page| ==> Linked(notes, links, c, page[i])
  {
    forall i | 0 <= i < |page| ensures Linked(notes, links, c, page[i]) {
      var p := page[i];
      assert exists k :: k in notes && k in members && notes[k] == p;
      var k :| k in notes && k in members && notes[k] == p;
      assert RowsFor(links, c, k) != {};
    }
  }

  /** One page of the owner's member notes, pinned first, most recently updated first. */
  function MemberPage(notes: map<Oid, Note>, members: seq<Oid>, owner: Oid, skip: nat, limit: nat): (r: seq<Note>)
    ensures |r| == PageSize(|MemberNotes(notes, members, owner)|, skip, limit)
    ensures ListsWindow(r, notes, Window(MemberNotes(notes, members, owner), PinnedKey(notes), skip, limit))
    ensures PinnedThenRecent(r)
    ensures forall i :: 0 <= i < |r| ==> r[i].owner == owner
    ensures forall i :: 0 <= i < |r| ==> exists k :: k in notes && k in members && notes[k] == r[i]
  {
    var ids := PinnedPage(notes, MemberNotes(notes, members, owner), skip, limit);
    PinnedOrder(notes, ids);
    LookupListsWindow(notes, ids, Window(MemberNotes(notes, members, owner), PinnedKey(notes), skip, limit));
    Lookup(notes, ids)
  }

  // ---------------------------------------------------------------------------
  // Writes

  /** create_collection on the collections map: a default request first demotes the
      owner's first default (find_one, then update_one), then the new document is
      inserted. */
  function WithNewCollection(cs: map<Oid, Collection>, c: Collection): map<Oid, Collection> {
    (if IsDefault(c) then DemoteFirstDefault(cs, c.owner) else cs)[c.id := c]
  }

  /** A default collection created for an owner who had at most one default is
      that owner's only default. */
  lemma NewDefaultIsOnlyDefault(cs: map<Oid, Collection>, c: Collection)
    requires c.id !in cs && IsDefault(c)
    requires |DefaultsOf(cs, c.owner)| <= 1
    ensures DefaultsOf(WithNewCollection(cs, c), c.owner) == {c.id}
  {
    DemoteFirstDefaultClears(cs, c.owner);
    var d := DemoteFirstDefault(cs, c.owner);
    assert DefaultsOf(d[c.id := c], c.owner) == DefaultsOf(d, c.owner) + {c.id};
  }

  /** Creating a collection keeps at most one default per owner. */
  lemma NewCollectionKeepsOneDefault(cs: map<Oid, Collection>, c: Collection)
    requires c.id !in cs
    requires OneDefaultPerOwner(cs)
    ensures OneDefaultPerOwner(WithNewCollection(cs, c))
  {
    var r := WithNewCollection(cs, c);
    OneDefaultPerOwnerBySets(cs);
    if IsDefault(c) {
      NewDefaultIsOnlyDefault(cs, c);
      var d := DemoteFirstDefault(cs, c.owner);
      forall a, b | a in r && b in r && r[a].owner == r[b].owner && IsDefault(r[a]) && IsDefault(r[b]) ensures a == b {
        if r[a].owner == c.owner {
          assert a in DefaultsOf(r, c.owner) && b in DefaultsOf(r, c.owner);
        } else {
          assert a != c.id && b != c.id;
          assert r[a] == cs[a] && r[b] == cs[b];
        }
      }
    }
  }

  /** The single find_one demotes one default only: an owner who already had two
      or more defaults still has at least two after creating another default. */
  lemma NewDefaultLeavesEarlierDefaults(cs: map<Oid, Collection>, c: Collection)
    requires c.id !in cs && IsDefault(c)
    requires |DefaultsOf(cs, c.owner)| >= 2
    ensures |DefaultsOf(WithNewCollection(cs, c), c.owner)| == |DefaultsOf(cs, c.owner)|
    ensures !OneDefaultPerOwner(WithNewCollection(cs, c))
  {
    DemoteFirstDefaultRemovesOne(cs, c.owner);
    var d := DemoteFirstDefault(cs, c.owner);
    var r := WithNewCollection(cs, c);
    assert DefaultsOf(r, c.owner) == DefaultsOf(d, c.owner) + {c.id};
    assert c.id !in DefaultsOf(d, c.owner);
    OneDefaultPerOwnerBySets(r);
  }

  /** A fresh collection with no rows and a zero counter keeps every counter exact. */
  lemma NewCollectionKeepsCounts(cs: map<Oid, Collection>, links: map<Oid, Link>, c: Collection)
    requires CollectionCountsExact(cs, links)
    requires c.noteCount == 0 && RowsOf(links, c.id) == {}
    ensures CollectionCountsExact(WithNewCollection(cs, c), links)
  {
  }

  /** create_collection keeps every condition of the store. */
  lemma CreateCollectionKeepsConsistency(users: map<Oid, User>, notes: map<Oid, Note>, tags: map<Oid, Tag>,
                                         cs: map<Oid, Collection>, links: map<Oid, Link>, shares: map<Oid, Share>,
                                         c: Collection)
    requires StoreConsistent(users, notes, tags, cs, links, shares)
    requires c.id !in cs && c.noteCount == 0 && RowsOf(links, c.id) == {}
    ensures StoreConsistent(users, notes, tags, WithNewCollection(cs, c), links, shares)
  {
    NewCollectionKeepsOneDefault(cs, c);
    NewCollectionKeepsCounts(cs, links, c);
  }

  /** create_collection's find_one of the owner's default and update_one clearing it. */
  method DemoteFirstDefaultOf(db: Store, owner: Oid)
    modifies db
    ensures db.collections == DemoteFirstDefault(old(db.collections), owner)
    ensures db.users == old(db.users) && db.notes == old(db.notes) && db.tags == old(db.tags)
    ensures db.links == old(db.links) && db.shares == old(db.shares)
  {
    var defaults := DefaultsOf(db.collections, owner);
    if defaults != {} {
      var first := FirstOf(defaults);
      db.collections := db.collections[first := db.collections[first].(isDefault := Some(false))];
    }
  }

  method CreateCollection(db: Store, request: CollectionCreate, owner: Oid, id: Oid, now: Time) returns (c: Collection)
    requires id !in db.collections && RowsOf(db.links, id) == {}
    modifies db
    ensures c == Collection(id, owner, Some(request.name), request.description, request.color,
                            Some(request.isDefault), 0, now, now)
    ensures db.collections == WithNewCollection(old(db.collections), c)
    ensures db.users == old(db.users) && db.notes == old(db.notes) && db.tags == old(db.tags)
    ensures db.links == old(db.links) && db.shares == old(db.shares)
    ensures request.isDefault && |DefaultsOf(old(db.collections), owner)| <= 1 ==>
              DefaultsOf(db.collections, owner) == {id}
    ensures old(db.Consistent()) ==> db.Consistent()
  {
    ghost var cs0 := db.collections;
    ghost var wasConsistent := db.Consistent();
    if request.isDefault {
      DemoteFirstDefaultOf(db, owner);
    }
    c := Collection(id, owner, Some(request.name), request.description, request.color,
                    Some(request.isDefault), 0, now, now);
    db.collections := db.collections[id := c];
    assert db.collections == WithNewCollection(cs0, c);
    if request.isDefault && |DefaultsOf(cs0, owner)| <= 1 {
      NewDefaultIsOnlyDefault(cs0, c);
    }
    if wasConsistent {
      CreateCollectionKeepsConsistency(db.users, db.notes, db.tags, cs0, db.links, db.shares, c);
    }
  }

  /** `$set` of the fields an update request supplies, plus updated_at. */
  function PatchCollection(c: Collection, u: CollectionUpdate, now: Time): (r: Collection)
    ensures r.id == c.id && r.owner == c.owner && r.noteCount == c.noteCount && r.createdAt == c.createdAt
  {
    c.(name := Apply(u.name, c.name), description := Apply(u.description, c.description),
       color := Apply(u.color, c.color), isDefault := Apply(u.isDefault, c.isDefault), updatedAt := now)
  }

  /** update_collection on the collections map, for an owned collection `k`:
      setting is_default on a collection that is not already default first
      demotes every default of the owner (update_many). */
  function WithUpdatedCollection(cs: map<Oid, Collection>, k: Oid, u: CollectionUpdate, now: Time): map<Oid, Collection>
    requires k in cs
  {
    var demoted := if SetsTrue(u.isDefault) && !IsDefault(cs[k]) then DemoteDefaults(cs, cs[k].owner) else cs;
    demoted[k := PatchCollection(cs[k], u, now)]
  }

  /** Making a collection the default leaves it its owner's only default. */
  lemma SetDefaultIsOnlyDefault(cs: map<Oid, Collection>, k: Oid, u: CollectionUpdate, now: Time)
    requires k in cs && SetsTrue(u.isDefault) && !IsDefault(cs[k])
    ensures DefaultsOf(WithUpdatedCollection(cs, k, u, now), cs[k].owner) == {k}
  {
    var owner := cs[k].owner;
    DemoteDefaultsClears(cs, owner);
    var d := DemoteDefaults(cs, owner);
    assert DefaultsOf(d[k := PatchCollection(cs[k], u, now)], owner) == DefaultsOf(d, owner) + {k};
  }

  /** Updating a collection keeps at most one default per owner. */
  lemma UpdateCollectionKeepsOneDefault(cs: map<Oid, Collection>, k: Oid, u: CollectionUpdate, now: Time)
    requires k in cs && OneDefaultPerOwner(cs)
    ensures OneDefaultPerOwner(WithUpdatedCollection(cs, k, u, now))
  {
    var owner := cs[k].owner;
    var r := WithUpdatedCollection(cs, k, u, now);
    if SetsTrue(u.isDefault) && !IsDefault(cs[k]) {
      SetDefaultIsOnlyDefault(cs, k, u, now);
      DemoteDefaultsClears(cs, owner);
      forall a, b | a in r && b in r && r[a].owner == r[b].owner && IsDefault(r[a]) && IsDefault(r[b]) ensures a == b {
        if r[a].owner == owner {
          assert a in DefaultsOf(r, owner) && b in DefaultsOf(r, owner);
        } else {
          assert a != k && b != k;
          assert a in DefaultsOf(DemoteDefaults(cs, owner), r[a].owner);
          assert b in DefaultsOf(DemoteDefaults(cs, owner), r[a].owner);
        }
      }
    }
  }

  /** update_collection keeps every condition of the store: the counters and
      owners do not move, and at most one default per owner survives. */
  lemma UpdateCollectionKeepsConsistency(users: map<Oid, User>, notes: map<Oid, Note>, tags: map<Oid, Tag>,
                                         cs: map<Oid, Collection>, links: map<Oid, Link>, shares: map<Oid, Share>,
                                         k: Oid, u: CollectionUpdate, now: Time)
    requires StoreConsistent(users, notes, tags, cs, links, shares) && k in cs
    ensures StoreConsistent(users, notes, tags, WithUpdatedCollection(cs, k, u, now), links, shares)
  {
    UpdateCollectionKeepsOneDefault(cs, k, u, now);
    var r := WithUpdatedCollection(cs, k, u, now);
    assert forall x :: x in r ==> r[x].id == cs[x].id && r[x].noteCount == cs[x].noteCount;
  }

  method UpdateCollection(db: Store, collectionId: string, update: CollectionUpdate, owner: Oid, now: Time)
    returns (r: Option<Collection>)
    modifies db
    ensures r.None? <==> !Owns(old(db.collections), collectionId, owner)
    ensures r.None? ==> unchanged(db)
    ensures r.Some? ==>
              && db.collections == WithUpdatedCollection(old(db.collections), ToOid(collectionId), update, now)
              && r.value == db.collections[ToOid(collectionId)]
    ensures db.users == old(db.users) && db.notes == old(db.notes) && db.tags == old(db.tags)
    ensures db.links == old(db.links) && db.shares == old(db.shares)
    ensures r.Some? && SetsTrue(update.isDefault) && !IsDefault(old(db.collections)[ToOid(collectionId)]) ==>
              DefaultsOf(db.collections, owner) == {ToOid(collectionId)}
    ensures old(db.Consistent()) ==> db.Consistent()
  {
    if !ValidId(collectionId) {
      return None;
    }
    var found := GetCollectionById(db.collections, collectionId, Some(owner));
    if found.None? {
      return None;
    }
    ghost var cs0 := db.collections;
    ghost var wasConsistent := db.Consistent();
    var k := ToOid(collectionId);
    var current := found.value;
    if SetsTrue(update.isDefault) && !IsDefault(current) {
      db.collections := DemoteDefaults(db.collections, owner);
    }
    db.collections := db.collections[k := PatchCollection(current, update, now)];
    r := Some(db.collections[k]);
    assert db.collections == WithUpdatedCollection(cs0, k, update, now);
    if SetsTrue(update.isDefault) && !IsDefault(current) {
      SetDefaultIsOnlyDefault(cs0, k, update, now);
    }
    if wasConsistent {
      UpdateCollectionKeepsConsistency(db.users, db.notes, db.tags, cs0, db.links, db.shares, k, update, now);
    }
  }

  /** Removing a collection together with its rows keeps every remaining counter exact. */
  lemma DeleteCollectionKeepsCounts(cs: map<Oid, Collection>, links: map<Oid, Link>, c: Oid)
    requires CollectionCountsExact(cs, links)
    ensures CollectionCountsExact(cs - {c}, DropLinksOfCollection(links, c))
  {
    forall other | other in cs - {c}
      ensures (cs - {c})[other].noteCount == RowCount(DropLinksOfCollection(links, c), other)
    {
      RowCountDropCollection(links, c, other);
    }
  }

  /** delete_collection, with its rows, keeps every condition of the store. */
  lemma DeleteCollectionKeepsConsistency(users: map<Oid, User>, notes: map<Oid, Note>, tags: map<Oid, Tag>,
                                         cs: map<Oid, Collection>, links: map<Oid, Link>, shares: map<Oid, Share>,
                                         c: Oid)
    requires StoreConsistent(users, notes, tags, cs, links, shares)
    ensures StoreConsistent(users, notes, tags, cs - {c}, DropLinksOfCollection(links, c), shares)
  {
    DeleteCollectionKeepsCounts(cs, links, c);
  }

  method DeleteCollection(db: Store, collectionId: string, owner: Oid) returns (ok: bool)
    modifies db
    ensures ok <==> Owns(old(db.collections), collectionId, owner)
    ensures !ok ==> unchanged(db)
    ensures ok ==> db.collections == old(db.collections) - {ToOid(collectionId)}
    ensures ok ==> db.links == DropLinksOfCollection(old(db.links), ToOid(collectionId))
    ensures db.users == old(db.users) && db.notes == old(db.notes) && db.tags == old(db.tags)
    ensures db.shares == old(db.shares)
    ensures old(db.Consistent()) ==> db.Consistent()
  {
    if !ValidId(collectionId) {
      return false;
    }
    var found := GetCollectionById(db.collections, collectionId, Some(owner));
    if found.None? {
      return false;
    }
    ghost var cs0, links0 := db.collections, db.links;
    ghost var wasConsistent := db.Consistent();
    var k := ToOid(collectionId);
    db.collections := db.collections - {k};
    db.links := DropLinksOfCollection(db.links, k);
    ok := true;
    if wasConsistent {
      DeleteCollectionKeepsConsistency(db.users, db.notes, db.tags, cs0, links0, db.shares, k);
    }
  }

  /** The checks add_note_to_collection makes before it looks for an existing row. */
  predicate CanLink(cs: map<Oid, Collection>, notes: map<Oid, Note>, collectionId: string, noteId: string, owner: Oid) {
    && ValidId(collectionId) && ValidId(noteId)
    && Owns(cs, collectionId, owner)
    && ToOid(noteId) in notes && notes[ToOid(noteId)].owner == owner
  }

  /** A new row for a pair that had none, with its counter raised by one, keeps
      the counters exact and the rows unique. */
  lemma LinkKeepsCounts(cs: map<Oid, Collection>, links: map<Oid, Link>, row: Link)
    requires CollectionCountsExact(cs, links) && LinksUnique(links)
    requires row.id !in links && RowsFor(links, row.collection, row.note) == {}
    ensures CollectionCountsExact(IncCollectionCount(cs, row.collection, 1), links[row.id := row])
    ensures LinksUnique(links[row.id := row])
  {
    var after := links[row.id := row];
    forall c | c in cs ensures IncCollectionCount(cs, row.collection, 1)[c].noteCount == RowCount(after, c) {
      RowCountStore(links, row.id, row, c);
    }
    forall b | b in links ensures !(links[b].collection == row.collection && links[b].note == row.note) {
      assert b !in RowsFor(links, row.collection, row.note);
    }
  }

  /** Moving a counter keeps the collections keyed and their defaults. */
  lemma CountMoveKeepsShape(cs: map<Oid, Collection>, c: Oid, d: int)
    requires CollectionsKeyed(cs) && OneDefaultPerOwner(cs)
    ensures CollectionsKeyed(IncCollectionCount(cs, c, d)) && OneDefaultPerOwner(IncCollectionCount(cs, c, d))
  {
    var cs' := IncCollectionCount(cs, c, d);
    forall a, b | a in cs' && b in cs' && cs'[a].owner == cs'[b].owner && IsDefault(cs'[a]) && IsDefault(cs'[b])
      ensures a == b
    {
      assert cs'[a].owner == cs[a].owner && cs'[b].owner == cs[b].owner;
      assert IsDefault(cs[a]) && IsDefault(cs[b]);
    }
  }

  /** Adding a row for a pair that had none, with its counter raised, keeps
      every condition of the store. */
  lemma LinkKeepsConsistency(users: map<Oid, User>, notes: map<Oid, Note>, tags: map<Oid, Tag>,
                             cs: map<Oid, Collection>, links: map<Oid, Link>, shares: map<Oid, Share>, row: Link)
    requires StoreConsistent(users, notes, tags, cs, links, shares)
    requires row.id !in links && RowsFor(links, row.collection, row.note) == {}
    requires row.collection in cs && row.note in notes && cs[row.collection].owner == notes[row.note].owner
    ensures StoreConsistent(users, notes, tags, IncCollectionCount(cs, row.collection, 1), links[row.id := row], shares)
  {
    LinkKeepsCounts(cs, links, row);
    CountMoveKeepsShape(cs, row.collection, 1);
    var cs', links' := IncCollectionCount(cs, row.collection, 1), links[row.id := row];
    forall r | r in links'
      ensures links'[r].collection in cs' && links'[r].note in notes
      ensures cs'[links'[r].collection].owner == notes[links'[r].note].owner
    {
      assert links'[r].collection in cs;
    }
  }

  method AddNoteToCollection(db: Store, collectionId: string, noteId: string, owner: Oid, id: Oid, now: Time)
    returns (ok: bool)
    requires id !in db.links
    modifies db
    ensures ok == CanLink(old(db.collections), old(db.notes), collectionId, noteId, owner)
    ensures !ok ==> unchanged(db)
    ensures ok && RowsFor(old(db.links), ToOid(collectionId), ToOid(noteId)) != {} ==> unchanged(db)
    ensures ok && RowsFor(old(db.links), ToOid(collectionId), ToOid(noteId)) == {} ==>
              && db.links == old(db.links)[id := Link(id, ToOid(collectionId), ToOid(noteId), now)]
              && db.collections == IncCollectionCount(old(db.collections), ToOid(collectionId), 1)
    ensures db.users == old(db.users) && db.notes == old(db.notes) && db.tags == old(db.tags)
    ensures db.shares == old(db.shares)
    ensures old(db.Consistent()) ==> db.Consistent()
  {
    if !ValidId(collectionId) || !ValidId(noteId) {
      return false;
    }
    var found := GetCollectionById(db.collections, collectionId, Some(owner));
    if found.None? {
      return false;
    }
    var c, n := ToOid(collectionId), ToOid(noteId);
    if !(n in db.notes && db.notes[n].owner == owner) {
      return false;
    }
    if RowsFor(db.links, c, n) != {} {
      return true;
    }
    ghost var cs0, links0 := db.collections, db.links;
    ghost var wasConsistent := db.Consistent();
    var row := Link(id, c, n, now);
    db.links := db.links[id := row];
    db.collections := IncCollectionCount(db.collections, c, 1);
    ok := true;
    if wasConsistent {
      LinkKeepsConsistency(db.users, db.notes, db.tags, cs0, links0, db.shares, row);
    }
  }

  /** Deleting a row with its counter lowered by one keeps the counters exact. */
  lemma UnlinkKeepsCounts(cs: map<Oid, Collection>, links: map<Oid, Link>, r: Oid)
    requires CollectionCountsExact(cs, links) && r in links
    ensures CollectionCountsExact(IncCollectionCount(cs, links[r].collection, -1), links - {r})
  {
    forall c | c in cs ensures IncCollectionCount(cs, links[r].collection, -1)[c].noteCount == RowCount(links - {r}, c) {
      RowCountRemove(links, r, c);
    }
  }

  /** The row remove_note_from_collection deletes: delete_one's first match. */
  function RowToRemove(links: map<Oid, Link>, c: Oid, n: Oid): (r: Oid)
    requires RowsFor(links, c, n) != {}
    ensures r in links && links[r].collection == c && links[r].note == n
  {
    FirstOf(RowsFor(links, c, n))
  }

  /** Removing a note right after adding it to a collection it was not in
      restores the rows and the counter. */
  lemma UnlinkUndoesLink(cs: map<Oid, Collection>, links: map<Oid, Link>, row: Link)
    requires row.id !in links && RowsFor(links, row.collection, row.note) == {}
    ensures RowsFor(links[row.id := row], row.collection, row.note) == {row.id}
    ensures RowToRemove(links[row.id := row], row.collection, row.note) == row.id
    ensures links[row.id := row] - {row.id} == links
    ensures IncCollectionCount(IncCollectionCount(cs, row.collection, 1), row.collection, -1) == cs
  {
    var after := links[row.id := row];
    forall r | r in RowsFor(after, row.collection, row.note) ensures r == row.id {
      assert r !in RowsFor(links, row.collection, row.note);
    }
    if row.collection in cs {
      var c := cs[row.collection];
      assert c.(noteCount := c.noteCount + 1).(noteCount := c.noteCount + 1 - 1) == c;
    }
  }

  /** Deleting a row with its counter lowered keeps every condition of the store. */
  lemma UnlinkKeepsConsistency(users: map<Oid, User>, notes: map<Oid, Note>, tags: map<Oid, Tag>,
                               cs: map<Oid, Collection>, links: map<Oid, Link>, shares: map<Oid, Share>, r: Oid)
    requires StoreConsistent(users, notes, tags, cs, links, shares) && r in links
    ensures StoreConsistent(users, notes, tags, IncCollectionCount(cs, links[r].collection, -1), links - {r}, shares)
  {
    UnlinkKeepsCounts(cs, links, r);
    CountMoveKeepsShape(cs, links[r].collection, -1);
  }

  method RemoveNoteFromCollection(db: Store, collectionId: string, noteId: string, owner: Oid) returns (ok: bool)
    modifies db
    ensures ok == (&& ValidId(collectionId) && ValidId(noteId)
                   && Owns(old(db.collections), collectionId, owner)
                   && RowsFor(old(db.links), ToOid(collectionId), ToOid(noteId)) != {})
    ensures !ok ==> unchanged(db)
    ensures ok ==>
              && db.links == old(db.links) - {RowToRemove(old(db.links), ToOid(collectionId), ToOid(noteId))}
              && db.collections == IncCollectionCount(old(db.collections), ToOid(collectionId), -1)
    ensures db.users == old(db.users) && db.notes == old(db.notes) && db.tags == old(db.tags)
    ensures db.shares == old(db.shares)
    ensures old(db.Consistent()) ==> db.Consistent()
  {
    if !ValidId(collectionId) || !ValidId(noteId) {
      return false;
    }
    var found := GetCollectionById(db.collections, collectionId, Some(owner));
    if found.None? {
      return false;
    }
    var c, n := ToOid(collectionId), ToOid(noteId);
    if RowsFor(db.links, c, n) == {} {
      return false;
    }
    ghost var cs0, links0 := db.collections, db.links;
    ghost var wasConsistent := db.Consistent();
    var r := RowToRemove(db.links, c, n);
    db.links := db.links - {r};
    db.collections := IncCollectionCount(db.collections, c, -1);
    ok := true;
    if wasConsistent {
      UnlinkKeepsConsistency(db.users, db.notes, db.tags, cs0, links0, db.shares, r);
    }
  }
}
