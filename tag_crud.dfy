/** app/crud/tag.py: tags, unique by name per owner, with a note_count kept by
 *  the note operations; deleting a tag pulls it out of the owner's notes.
 */
module TagCrud {
  import opened Ids
  import opened Maybe
  import opened Documents
  import opened Order
  import opened Sorts
  import opened Consistency
  import opened Database

  // ---------------------------------------------------------------------------
  // Reads

  /** get_tag_by_id: the tag stored under the id, and only when it belongs to
      `owner` if an owner is given. */
  function GetTagById(tags: map<Oid, Tag>, tagId: string, owner: Option<Oid>): (r: Option<Tag>)
    ensures r.Some? ==> ValidId(tagId) && ToOid(tagId) in tags && r.value == tags[ToOid(tagId)]
    ensures r.Some? && owner.Some? ==> r.value.owner == owner.value
    ensures ValidId(tagId) && ToOid(tagId) in tags && (owner.None? || tags[ToOid(tagId)].owner == owner.value)
            ==> r.Some?
  {
    if !ValidId(tagId) then None
    else
      var k := ToOid(tagId);
      if k in tags && (owner.None? || tags[k].owner == owner.value) then Some(tags[k]) else None
  }

  /** The owned lookup every write below starts with. */
  predicate OwnsTag(tags: map<Oid, Tag>, tagId: string, owner: Oid) {
    GetTagById(tags, tagId, Some(owner)).Some?
  }

  /** The owner's tags whose name field equals `name` (null matching null). */
  function TagsNamed(tags: map<Oid, Tag>, name: Option<string>, owner: Oid): set<Oid> {
    set k | k in tags && tags[k].owner == owner && tags[k].name == name
  }

  /** get_tag_by_name: the first of the owner's tags with that name. */
  function GetTagByName(tags: map<Oid, Tag>, name: Option<string>, owner: Oid): (r: Option<Tag>)
    ensures r.None? <==> TagsNamed(tags, name, owner) == {}
    ensures r.Some? ==> r.value in tags.Values && r.value.owner == owner && r.value.name == name
  {
    var named := TagsNamed(tags, name, owner);
    if named == {} then None else Some(tags[FirstOf(named)])
  }

  /** With names unique per owner, the tag found by name is the one tag with that name. */
  lemma GetTagByNameFindsTheTag(tags: map<Oid, Tag>, k: Oid)
    requires TagNamesUnique(tags) && k in tags
    ensures GetTagByName(tags, tags[k].name, tags[k].owner) == Some(tags[k])
  {
    var named := TagsNamed(tags, tags[k].name, tags[k].owner);
    assert k in named;
    assert FirstOf(named) == k;
  }

  function OwnedTags(tags: map<Oid, Tag>, owner: Oid): set<Oid> {
    set k | k in tags && tags[k].owner == owner
  }

  /** The tags on the requested page of get_tags: the owner's tags ranked by name. */
  function TagWindow(tags: map<Oid, Tag>, owner: Oid, skip: nat, limit: nat): set<Oid> {
    Window(OwnedTags(tags, owner), TagKey(tags), skip, limit)
  }

  /** get_tags: one page of the owner's tags, by name. */
  function GetTags(tags: map<Oid, Tag>, owner: Oid, skip: nat, limit: nat): (r: seq<Tag>)
    requires limit >= 1
    ensures |r| == PageSize(|OwnedTags(tags, owner)|, skip, limit)
    ensures ListsWindow(r, tags, TagWindow(tags, owner, skip, limit))
    ensures forall i :: 0 <= i < |r| ==> r[i] in tags.Values && r[i].owner == owner
    ensures ByName(r)
  {
    TagKeyTagged(tags);
    var ids := PageOf(OwnedTags(tags, owner), TagKey(tags), skip, limit);
    TagOrder(tags, ids);
    LookupStored(tags, ids);
    LookupListsWindow(tags, ids, TagWindow(tags, owner, skip, limit));
    Lookup(tags, ids)
  }

  /** The owner's notes whose tag list contains `t`. */
  function OwnedNotesWithTag(notes: map<Oid, Note>, owner: Oid, t: Oid): set<Oid> {
    set k | k in notes && notes[k].owner == owner && HasTag(notes[k], t)
  }

  /** The notes on the requested page of get_notes_by_tag: the owner's notes
      carrying the tag, ranked most recently updated first. */
  function TaggedWindow(notes: map<Oid, Note>, owner: Oid, t: Oid, skip: nat, limit: nat): set<Oid> {
    Window(OwnedNotesWithTag(notes, owner, t), RecentKey(notes), skip, limit)
  }

  /** get_notes_by_tag: one page of the owner's notes carrying the tag, most
      recently updated first. Whether the tag exists is not consulted. */
  function GetNotesByTag(notes: map<Oid, Note>, tagId: string, owner: Oid, skip: nat, limit: nat): (r: seq<Note>)
    requires limit >= 1
    ensures !ValidId(tagId) ==> r == []
    ensures ValidId(tagId) ==>
              && |r| == PageSize(|OwnedNotesWithTag(notes, owner, ToOid(tagId))|, skip, limit)
              && ListsWindow(r, notes, TaggedWindow(notes, owner, ToOid(tagId), skip, limit))
    ensures forall i :: 0 <= i < |r| ==> r[i] in notes.Values && r[i].owner == owner && HasTag(r[i], ToOid(tagId))
    ensures MostRecentFirst(r)
  {
    if !ValidId(tagId) then []
    else
      var matching := OwnedNotesWithTag(notes, owner, ToOid(tagId));
      RecentKeyTagged(notes);
      var ids := PageOf(matching, RecentKey(notes), skip, limit);
      assert forall i :: 0 <= i < |ids| ==> ids[i] in matching;
      RecentOrder(notes, ids);
      LookupStored(notes, ids);
      LookupListsWindow(notes, ids, TaggedWindow(notes, owner, ToOid(tagId), skip, limit));
      Lookup(notes, ids)
  }

  // ---------------------------------------------------------------------------
  // Writes

  /** A freshly generated tag id: no tag has it and no note lists it. */
  ghost predicate UnusedTagId(tags: map<Oid, Tag>, notes: map<Oid, Note>, id: Oid) {
    id !in tags && NotesWithTag(notes, id) == {}
  }

  /** Inserting a tag with a fresh id, a zero counter and a name the owner does not
      use yet keeps the store consistent. */
  lemma NewTagKeepsConsistency(users: map<Oid, User>, notes: map<Oid, Note>, tags: map<Oid, Tag>,
                               cs: map<Oid, Collection>, links: map<Oid, Link>, shares: map<Oid, Share>, t: Tag)
    requires StoreConsistent(users, notes, tags, cs, links, shares)
    requires UnusedTagId(tags, notes, t.id) && t.noteCount == 0
    requires TagsNamed(tags, t.name, t.owner) == {}
    ensures StoreConsistent(users, notes, tags[t.id := t], cs, links, shares)
  {
    var tags' := tags[t.id := t];
    forall a, b | a in tags' && b in tags' && tags'[a].owner == tags'[b].owner && tags'[a].name == tags'[b].name
      ensures a == b
    {
      assert a !in TagsNamed(tags, t.name, t.owner) && b !in TagsNamed(tags, t.name, t.owner);
    }
  }

  method CreateTag(db: Store, request: TagCreate, owner: Oid, id: Oid, now: Time) returns (r: Result<Tag>)
    requires UnusedTagId(db.tags, db.notes, id)
    modifies db
    ensures r.Err? <==> GetTagByName(old(db.tags), Some(request.name), owner).Some?
    ensures r.Err? ==> r.error == ValueError(DuplicateTagName) && unchanged(db)
    ensures r.Ok? ==> r.value == Tag(id, owner, Some(request.name), request.color, 0, now, now)
    ensures r.Ok? ==> db.tags == old(db.tags)[id := r.value]
    ensures db.users == old(db.users) && db.notes == old(db.notes) && db.collections == old(db.collections)
    ensures db.links == old(db.links) && db.shares == old(db.shares)
    ensures old(db.Consistent()) ==> db.Consistent()
  {
    var existing := GetTagByName(db.tags, Some(request.name), owner);
    if existing.Some? {
      return Err(ValueError(DuplicateTagName));
    }
    var t := Tag(id, owner, Some(request.name), request.color, 0, now, now);
    ghost var wasConsistent, tags0 := db.Consistent(), db.tags;
    db.tags := db.tags[id := t];
    r := Ok(t);
    if wasConsistent {
      NewTagKeepsConsistency(db.users, db.notes, tags0, db.collections, db.links, db.shares, t);
    }
  }

  /** A created tag is what get_tag_by_name finds afterwards. */
  lemma CreatedTagIsFoundByName(tags: map<Oid, Tag>, t: Tag)
    requires t.id !in tags
    requires TagsNamed(tags, t.name, t.owner) == {}
    ensures GetTagByName(tags[t.id := t], t.name, t.owner) == Some(t)
  {
    assert TagsNamed(tags[t.id := t], t.name, t.owner) == {t.id};
  }

  /** update_tag refuses a name change to a name another of the owner's tags has. */
  predicate RenameClashes(tags: map<Oid, Tag>, current: Tag, u: TagUpdate, owner: Oid) {
    var requested := Requested(u.name);
    requested.Some? && requested.value != current.name && GetTagByName(tags, requested.value, owner).Some?
  }

  function PatchTag(t: Tag, u: TagUpdate, now: Time): (r: Tag)
    ensures r.id == t.id && r.owner == t.owner && r.noteCount == t.noteCount && r.createdAt == t.createdAt
    ensures r.name == Apply(u.name, t.name) && r.color == Apply(u.color, t.color) && r.updatedAt == now
  {
    t.(name := Apply(u.name, t.name), color := Apply(u.color, t.color), updatedAt := now)
  }

  /** An update that passes the name check keeps the store consistent: names
      stay unique, and the counter is not touched. */
  lemma UpdateTagKeepsConsistency(users: map<Oid, User>, notes: map<Oid, Note>, tags: map<Oid, Tag>,
                                  cs: map<Oid, Collection>, links: map<Oid, Link>, shares: map<Oid, Share>,
                                  k: Oid, u: TagUpdate, now: Time)
    requires StoreConsistent(users, notes, tags, cs, links, shares)
    requires k in tags && !RenameClashes(tags, tags[k], u, tags[k].owner)
    ensures StoreConsistent(users, notes, tags[k := PatchTag(tags[k], u, now)], cs, links, shares)
  {
    var t := PatchTag(tags[k], u, now);
    var tags' := tags[k := t];
    forall a, b | a in tags' && b in tags' && tags'[a].owner == tags'[b].owner && tags'[a].name == tags'[b].name
      ensures a == b
    {
      if a != k && b != k {
      } else if t.name == tags[k].name {
      } else {
        var other := if a == k then b else a;
        assert other != k ==> other in TagsNamed(tags, t.name, t.owner);
      }
    }
  }

  method UpdateTag(db: Store, tagId: string, update: TagUpdate, owner: Oid, now: Time) returns (r: Result<Option<Tag>>)
    modifies db
    ensures r == Ok(None) <==> !OwnsTag(old(db.tags), tagId, owner)
    ensures r.Err? <==> OwnsTag(old(db.tags), tagId, owner) && RenameClashes(old(db.tags), old(db.tags)[ToOid(tagId)], update, owner)
    ensures r.Err? ==> r.error == ValueError(DuplicateTagName)
    ensures !(r.Ok? && r.value.Some?) ==> unchanged(db)
    ensures r.Ok? && r.value.Some? ==>
              var k := ToOid(tagId);
              && db.tags == old(db.tags)[k := PatchTag(old(db.tags)[k], update, now)]
              && r.value.value == db.tags[k]
    ensures db.users == old(db.users) && db.notes == old(db.notes) && db.collections == old(db.collections)
    ensures db.links == old(db.links) && db.shares == old(db.shares)
    ensures old(db.Consistent()) ==> db.Consistent()
  {
    if !ValidId(tagId) {
      return Ok(None);
    }
    var found := GetTagById(db.tags, tagId, Some(owner));
    if found.None? {
      return Ok(None);
    }
    var k := ToOid(tagId);
    var t := found.value;
    var requested := Requested(update.name);
    if requested.Some? && requested.value != t.name {
      var existing := GetTagByName(db.tags, requested.value, owner);
      if existing.Some? {
        return Err(ValueError(DuplicateTagName));
      }
    }
    ghost var wasConsistent, tags0 := db.Consistent(), db.tags;
    db.tags := db.tags[k := PatchTag(t, update, now)];
    r := Ok(Some(db.tags[k]));
    if wasConsistent {
      UpdateTagKeepsConsistency(db.users, db.notes, tags0, db.collections, db.links, db.shares, k, update, now);
    }
  }

  /** Removing a tag and pulling it from the owner's notes keeps the store
      consistent: the remaining tags count the same notes as before. */
  lemma DeleteTagKeepsConsistency(users: map<Oid, User>, notes: map<Oid, Note>, tags: map<Oid, Tag>,
                                  cs: map<Oid, Collection>, links: map<Oid, Link>, shares: map<Oid, Share>,
                                  k: Oid, owner: Oid)
    requires StoreConsistent(users, notes, tags, cs, links, shares)
    ensures StoreConsistent(users, PullTag(notes, owner, k), tags - {k}, cs, links, shares)
  {
    var notes' := PullTag(notes, owner, k);
    PullTagEffect(notes, owner, k);
    forall t | t in tags - {k} ensures (tags - {k})[t].noteCount == TagUses(notes', t) {
      assert NotesWithTag(notes', t) == NotesWithTag(notes, t);
    }
    assert forall n :: n in notes' ==> notes'[n].id == notes[n].id && notes'[n].owner == notes[n].owner;
  }

  method DeleteTag(db: Store, tagId: string, owner: Oid) returns (ok: bool)
    modifies db
    ensures ok <==> OwnsTag(old(db.tags), tagId, owner)
    ensures !ok ==> unchanged(db)
    ensures ok ==> db.tags == old(db.tags) - {ToOid(tagId)} && db.notes == PullTag(old(db.notes), owner, ToOid(tagId))
    ensures ok ==> forall k :: k in db.notes && db.notes[k].owner == owner ==> !HasTag(db.notes[k], ToOid(tagId))
    ensures forall k :: k in old(db.notes) && old(db.notes)[k].owner != owner ==> k in db.notes && db.notes[k] == old(db.notes)[k]
    ensures db.users == old(db.users) && db.collections == old(db.collections)
    ensures db.links == old(db.links) && db.shares == old(db.shares)
    ensures old(db.Consistent()) ==> db.Consistent()
  {
    if !ValidId(tagId) {
      return false;
    }
    var found := GetTagById(db.tags, tagId, Some(owner));
    if found.None? {
      return false;
    }
    var k := ToOid(tagId);
    ghost var wasConsistent, tags0, notes0 := db.Consistent(), db.tags, db.notes;
    PullTagEffect(db.notes, owner, k);
    db.tags := db.tags - {k};
    db.notes := PullTag(db.notes, owner, k);
    ok := true;
    if wasConsistent {
      DeleteTagKeepsConsistency(db.users, notes0, tags0, db.collections, db.links, db.shares, k, owner);
    }
  }

  /** delete_tag pulls the tag only out of its owner's notes: a note of another
      owner that lists the tag's id keeps listing it. */
  lemma DeleteTagKeepsForeignReferences(notes: map<Oid, Note>, owner: Oid, k: Oid, n: Oid)
    requires n in notes && notes[n].owner != owner && HasTag(notes[n], k)
    ensures HasTag(PullTag(notes, owner, k)[n], k)
  {
  }
}
