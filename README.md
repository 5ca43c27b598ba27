# Notes API: relationships and counters, in Dafny

This project models the data layer of a notes service that keeps its documents in
MongoDB. Users own notes, tags and collections. Notes carry a list of tag ids.
Membership of a note in a collection is a row of `collection_notes`. Access that
one user grants another to a note is a row of `shared_notes`. Tags and
collections also keep a denormalised `note_count` that the write operations move
with `$inc`.

The model covers:

- the CRUD modules for collections, notes, tags, shares and users;
- the two endpoint modules that loop over them: sharing a note with several
  users, and adding several notes to a collection.

The database is a class, `Database.Store`, with one map per collection of
documents, keyed by `_id`. Every write operation is a method that changes those
maps one store call at a time, as the source does. Every read is a function.

`Consistency.StoreConsistent` gathers what the data layer is meant to keep true:

- every document is stored under its own id;
- e-mails and user names are unique, from the unique indexes in
  `app/db/mongodb.py:18-19`;
- there is at most one grant per (note, user) pair, from the unique index in
  `app/db/mongodb.py:37`;
- tag names are unique per owner (checked by `create_tag` and `update_tag`; no
  index backs this);
- no grant names the note's owner;
- there is at most one membership row per (collection, note);
- every membership row joins a stored collection and a stored note of the same
  owner;
- each owner has at most one default collection;
- every tag's counter equals the number of notes that carry it;
- every collection's counter equals the number of its membership rows.

Each write method states its exact new state. It also states either that it
preserves `Consistent()`, or exactly which part it breaks:

- `delete_note` leaves collection counters stale;
- `update_note` with an explicit null tag list leaves tag counters stale.

Ids follow `bson.ObjectId`:

- `Ids.ValidId` accepts 24 hexadecimal digits in either case;
- `Ids.ToOid` gives the canonical lower-case id the store holds.

The sort orders of the source queries come from `Order.SortBy` over a lexicographic
`Order.Key`:

- pinned first, then most recently updated;
- default collections first, then by name;
- tags by name;
- best text-search match first.

Ties, and queries with no sort, fall back to ascending id, which the model takes
as MongoDB's natural order.

Every listing states exactly which documents it returns. `Order.Rank` counts
the matches that precede a match in the key order, and `Order.Window` is the set
of matches whose rank lies in `[skip, skip + limit)`. A `.sort().skip().limit()`
query returns exactly that window, each document once, in key order.

The share endpoints answer with `ShareEndpoints.Reply`. Its `Unserializable`
case is a 500 raised after the writes. The grants that the share CRUD functions
hand back carry `_id` but no `id` key, and the `Share` response schema
(`app/models/share.py:26-29`) requires `id`. So `share_note` fails once any user
is granted, `get_note_shares` fails for a note with any grant, and
`update_share_by_id` fails after every update. The model keeps the body the
endpoint built, so that its contents can still be stated.

## Model

| member | source | states |
|---|---|---|
| Ids.ToOid | app/crud/collection.py:12-15 | A valid id converts to a valid id; an id already in canonical form is unchanged. |
| Ids.OidRoundTrip | app/crud/collection.py:15 | A stored id is valid and converts to itself. |
| Ids.CaseInsensitive | app/crud/collection.py:12-15 | Two valid ids that differ only in the case of their hex digits name the same document. |
| Ids.ParseIds | app/crud/note.py:81 | The parsed tag list keeps exactly the converted valid ids of the request, and no more entries than the request. When every entry is valid, the lengths are equal. |
| Ids.ParseIdsAppend | app/crud/note.py:81 | Filtering out invalid ids distributes over concatenation. |
| Ids.ParseIdsStep | app/crud/note.py:135 | One more requested id adds its conversion when it is valid, and nothing otherwise. |
| Order.SortBy | app/crud/note.py:61-64 | A sort yields each matching document exactly once, strictly ascending in the key. |
| Order.FirstOf | app/crud/collection.py:41-44 | find_one returns a matching document that precedes every other match in natural order. |
| Order.TakeNatural | app/crud/collection.py:219-221 | to_list(length=n) returns min(n, matches) distinct matches in ascending id: exactly the first n matches in natural order, and all of them when there are at most n. |
| Order.Page | app/crud/note.py:67-68 | skip/limit returns at most `limit` documents: the slice starting at `skip`, empty past the end. |
| Order.PageOf | app/crud/collection.py:25-30 | A sorted skip/limit page holds exactly the matches whose rank in the key order (the number of matches before them) lies in [skip, skip + limit), in ascending key order. Its length is min(limit, matches - skip), or 0 past the end. |
| Order.PageIsWindow | app/crud/note.py:61-68 | The slice of the sorted matches from skip, at most limit long, holds exactly the matches ranked in [skip, skip + limit). |
| Order.AscendingUnique | app/crud/note.py:61-64 | Two strictly ascending lists with the same members are equal: the sorted order of a set of matches is unique. |
| Order.LeastUnique | app/crud/note.py:61-64 | A set has only one least element under a total key order, so a sort is deterministic. |
| Order.KeyLessTotal | app/crud/note.py:61-64 | The key order is total on distinct ids; with KeyLessTransitive and KeyLessIrreflexive, it is a strict total order. |
| Sorts.CollectionOrder | app/crud/collection.py:25-28 | Collections sorted by key come default first, then by ascending name. |
| Sorts.PinnedOrder | app/crud/note.py:61-64 | Notes sorted by key come pinned first, then most recently updated first. |
| Sorts.PinnedPage | app/crud/note.py:61-68 | A pinned-first page holds exactly the selected notes ranked in the window, in pinned-then-recent key order. |
| Sorts.RecentOrder | app/crud/note.py:219-221 | Notes sorted by key come most recently updated first. |
| Sorts.ScoreOrder | app/crud/note.py:54-58 | Notes sorted by score key all match the search, best score first. |
| Sorts.TagOrder | app/crud/tag.py:31-33 | Tags sorted by key come by ascending name. |
| Consistency.MemberIds | app/crud/collection.py:219-223 | At most 1000 member note ids, each with a row in the collection. Empty exactly when the collection has no rows. Complete when it has at most 1000 rows. |
| Consistency.PullTagEffect | app/crud/tag.py:121-124 | `$pull` removes the tag from every note of the owner, leaves other owners' notes alone, and leaves which notes carry any other tag unchanged. |
| Consistency.DemoteFirstDefaultRemovesOne | app/crud/collection.py:40-50 | Clearing the first default collection found lowers the owner's number of defaults by exactly one, if there was one. |
| Consistency.DemoteDefaultsClears | app/crud/collection.py:89-94 | update_many clears every default of the owner and no other owner's. |
| Consistency.OneDefaultPerOwnerBySets | app/crud/collection.py:39-50 | "One default per owner" is the same as every owner having at most one default. |
| CollectionCrud.GetCollectionById | app/crud/collection.py:9-19 | Returns the stored collection exactly when the id is valid, it exists, and it belongs to the owner when one is given. |
| CollectionCrud.GetCollections | app/crud/collection.py:22-31 | Exactly the owner's collections ranked in [skip, skip + limit) by default-then-name, each once, in that order; min(limit, owned - skip) of them. |
| CollectionCrud.MemberPage | app/crud/collection.py:230-237 | Exactly the owner's notes among the members that rank in the pinned-then-recent window, each once, in that order; min(limit, matches - skip) of them. |
| CollectionCrud.PageNotesHaveRows | app/crud/collection.py:218-237 | Every note on the page is stored under an id that has a row in the collection. |
| CollectionCrud.MemberPageLinked | app/crud/collection.py:219-237 | Every note of the member page belongs to the owner and has a row in the collection. |
| CollectionCrud.MembersPage | app/crud/collection.py:218-243 | TypeError exactly when some note of the member window has a null tag list. Otherwise the notes of that window, pinned then recent, each the owner's, tagged and linked to the collection. [] when the collection has no rows. |
| CollectionCrud.MembersPageFacts | app/crud/collection.py:218-243 | The member page lists the member window; it has an untagged note exactly when the window does; no rows means an empty page and no error. |
| CollectionCrud.UntaggedOnPage | app/crud/collection.py:240-243 | A page that lists a window holds a note with a null tag list exactly when the window does. |
| CollectionCrud.GetCollectionWithNotes | app/crud/collection.py:206-247 | None exactly when the caller does not own the collection. TypeError exactly when the caller owns it and some note of the member window has a null tag list. Otherwise the collection with exactly the notes of that window, pinned then recent, and an empty list when there are no rows. |
| CollectionCrud.NewDefaultIsOnlyDefault | app/crud/collection.py:39-64 | A new default collection for an owner with at most one default becomes that owner's only default. |
| CollectionCrud.NewCollectionKeepsOneDefault | app/crud/collection.py:39-64 | Creating a collection preserves "one default per owner". |
| CollectionCrud.NewDefaultLeavesEarlierDefaults | app/crud/collection.py:40-50 | An owner who already has two defaults keeps as many defaults as before after another default is created: only one old default is cleared. |
| CollectionCrud.NewCollectionKeepsCounts | app/crud/collection.py:52-64 | A new collection with count 0 and no rows keeps every collection counter exact. |
| CollectionCrud.CreateCollectionKeepsConsistency | app/crud/collection.py:34-70 | create_collection preserves store consistency. |
| CollectionCrud.DemoteFirstDefaultOf | app/crud/collection.py:41-50 | The write changes only the collections map, as DemoteFirstDefault says. |
| CollectionCrud.CreateCollection | app/crud/collection.py:34-70 | Inserts the requested collection with count 0. For a default, it first clears one earlier default. The new default is the owner's only default when there was at most one before. It preserves consistency. |
| CollectionCrud.PatchCollection | app/crud/collection.py:86-103 | `$set` keeps the id, owner, counter and creation time. |
| CollectionCrud.SetDefaultIsOnlyDefault | app/crud/collection.py:88-103 | Setting the default flag on a non-default collection makes it the owner's only default. |
| CollectionCrud.UpdateCollectionKeepsOneDefault | app/crud/collection.py:88-103 | Every update preserves "one default per owner", including an update that sets the flag on a collection that is already default. |
| CollectionCrud.UpdateCollectionKeepsConsistency | app/crud/collection.py:73-106 | update_collection preserves store consistency. |
| CollectionCrud.UpdateCollection | app/crud/collection.py:73-106 | None, with nothing changed, exactly when the caller does not own the collection. Otherwise it stores and returns the patched collection, after clearing the owner's other defaults when the flag is set. It preserves consistency. |
| CollectionCrud.DeleteCollectionKeepsCounts | app/crud/collection.py:122-128 | Removing a collection together with its rows keeps the other counters exact. |
| CollectionCrud.DeleteCollectionKeepsConsistency | app/crud/collection.py:109-130 | delete_collection preserves store consistency. |
| CollectionCrud.DeleteCollection | app/crud/collection.py:109-130 | True exactly when the caller owns the collection. It then removes the collection and all of its rows, and preserves consistency. |
| CollectionCrud.LinkKeepsCounts | app/crud/collection.py:159-171 | A new row for an unlinked pair, plus `$inc` by 1, keeps the counters exact and the rows unique. |
| CollectionCrud.CountMoveKeepsShape | app/crud/collection.py:168-171 | Moving a counter changes no id and no default flag. |
| CollectionCrud.LinkKeepsConsistency | app/crud/collection.py:159-171 | Linking an unlinked pair of a stored collection and a stored note of one owner preserves store consistency, including that every row joins documents of one owner. |
| CollectionCrud.AddNoteToCollection | app/crud/collection.py:133-173 | True exactly when both ids are valid and the caller owns both the collection and the note. An existing row leaves the store unchanged. Otherwise it adds one row and raises the counter by one. It preserves consistency. |
| CollectionCrud.UnlinkKeepsCounts | app/crud/collection.py:189-201 | Removing a row, plus `$inc` by -1, keeps the counters exact. |
| CollectionCrud.RowToRemove | app/crud/collection.py:189-192 | delete_one picks a row of the given (collection, note) pair. |
| CollectionCrud.UnlinkUndoesLink | app/crud/collection.py:159-201 | Removing a note from a collection undoes adding it: the rows and counters return to what they were. |
| CollectionCrud.UnlinkKeepsConsistency | app/crud/collection.py:189-201 | Removing any row, plus the matching decrement, preserves store consistency. |
| CollectionCrud.RemoveNoteFromCollection | app/crud/collection.py:176-203 | True exactly when both ids are valid, the caller owns the collection, and the pair has a row. It then removes one row and lowers the counter by one, and preserves consistency. |
| NoteCrud.GetNoteById | app/crud/note.py:9-19 | Returns the stored note exactly when the id is valid, it exists, and it belongs to the owner when one is given. |
| NoteCrud.NotePage | app/crud/note.py:35-68 | Exactly the ids of the note window: with search text, the filtered notes that match, ranked best first; otherwise all filtered notes, ranked pinned then recent. Each id once, in that order. |
| NoteCrud.ScorePage | app/crud/note.py:54-68 | A search page holds exactly the matching selected notes ranked in the window, best score first. |
| NoteCrud.GetNotesFacts | app/crud/note.py:35-68 | The page's notes pass every filter. Tag ids that are all invalid give an empty result. The order is by score or pinned-then-recent. |
| NoteCrud.FilteredNotesPass | app/crud/note.py:35-51 | Notes kept by the composed query are stored and pass every given filter. |
| NoteCrud.MemberNotesLinked | app/crud/note.py:44-51 | With a collection filter, every result is a stored note that has a row in that collection. |
| NoteCrud.GetNotes | app/crud/note.py:22-70 | An invalid collection id gives []. Otherwise exactly the notes of the note window, each once: the filtered notes ranked by score with search text, else pinned then recent. They pass the tag, pinned and collection filters, and tag ids that are all invalid give []. |
| NoteCrud.IncNoTags | app/crud/note.py:100-104 | Raising the counters of no tags changes nothing. |
| NoteCrud.NewNoteKeepsTagCounts | app/crud/note.py:97-104 | Inserting a note and raising the counter of each distinct tag on it keeps tag counters exact. |
| NoteCrud.RetagKeepsTagCounts | app/crud/note.py:139-153 | Lowering the removed tags and raising the added ones keeps tag counters exact. |
| NoteCrud.RetagMovesByOne | app/crud/note.py:139-153 | Each counter moves by at most one: up for a tag only in the new list, down for a tag only in the old one. |
| NoteCrud.NullingTagsLeavesCountsStale | app/crud/note.py:132-134 | Setting a note's tags to null leaves every tag it carried counted once too many. |
| NoteCrud.DeletedNoteKeepsTagCounts | app/crud/note.py:186-192 | Deleting a note and lowering its tags' counters keeps tag counters exact. |
| NoteCrud.DeletedNoteLeavesCollectionCountsStale | app/crud/note.py:194-195 | Deleting a note's rows without a decrement leaves each of its collections counting one too many. |
| NoteCrud.NewNote | app/crud/note.py:78-95 | The inserted note has the given id, owner and times. Its tag list is the request's valid ids, and a tag is on it exactly when a valid request entry names it. |
| NoteCrud.CreateNoteKeepsConsistency | app/crud/note.py:73-111 | create_note preserves store consistency. |
| NoteCrud.InsertNote | app/crud/note.py:97-104 | Inserts the note and raises the counter of each tag on it. It preserves consistency. |
| NoteCrud.CreateNote | app/crud/note.py:73-111 | Stores NewNote under a fresh id and raises its tags' counters. Nothing else changes, and consistency is preserved. |
| NoteCrud.PatchNote | app/crud/note.py:127-162 | `$set` keeps the id, owner and creation time, stamps the update time, and keeps, nulls or replaces the tag list as requested. |
| NoteCrud.UpdateNoteKeepsConsistency | app/crud/note.py:114-165 | update_note preserves store consistency unless it sets the tag list to null. |
| NoteCrud.UpdateNoteNullingTagsBreaksCounts | app/crud/note.py:132-162 | update_note with a null tag list on a tagged note breaks exact tag counting. |
| NoteCrud.RetagCounters | app/crud/note.py:139-153 | The two update_many calls change only the tags map, as Retag says. |
| NoteCrud.UpdateNote | app/crud/note.py:114-165 | None, with nothing changed, exactly when the caller does not own the note. TypeError, with nothing changed, exactly when a new tag list meets a stored null list. Otherwise it stores the patched note and moves the tag counters. It preserves consistency unless the tags are nulled. |
| NoteCrud.UntagDeletedKeepsTags | app/crud/note.py:186-192 | Lowering a deleted note's tag counters keeps tag ids, unique names and exact counters. |
| NoteCrud.DeleteNoteEffect | app/crud/note.py:168-200 | delete_note keeps every condition except the collection counters, which it breaks whenever the note was in a collection. |
| NoteCrud.DroppedNoteKeepsOwners | app/crud/note.py:194-195 | Dropping the note's rows leaves every remaining row joining a stored collection and a stored note of one owner. |
| NoteCrud.RemoveNote | app/crud/note.py:180-198 | Removes the note, lowers its tags' counters, and drops its rows and grants. |
| NoteCrud.DeleteNote | app/crud/note.py:168-200 | True exactly when the caller owns the note. It then removes the note, its rows and its grants, and lowers its tags' counters. It keeps every condition except collection counters, which it breaks whenever the note was in a collection. |
| NoteCrud.SharedRecords | app/crud/note.py:207-213 | At most 1000 of the user's grants. Empty exactly when the user has none. All of them when the user has at most 1000. |
| NoteCrud.SharedPage | app/crud/note.py:215-223 | Exactly the ids of the stored notes named by the user's records that rank in the most-recent-first window, each once, in that order. |
| NoteCrud.FirstRecordFor | app/crud/note.py:226-230 | The index of the first record for the note. It exists whenever the note came from those records. |
| NoteCrud.FindRecord | app/crud/note.py:227-230 | The inner loop stops at the first record for the note. |
| NoteCrud.AttachPermissions | app/crud/note.py:225-230 | Returns the notes unchanged, in order, each with the permission of its first matching record. |
| NoteCrud.GetSharedNotes | app/crud/note.py:203-232 | [] when the user has no grants. Otherwise exactly the notes of the shared window, most recent first, each with the permission of its first record. |
| NoteCrud.SharedPermissionIsTheGrant | app/crud/note.py:225-230 | With unique grants, the attached permission is the one grant's permission. |
| NoteCrud.NotesOf | app/crud/note.py:225-232 | The notes of the result, position by position. |
| TagCrud.GetTagById | app/crud/tag.py:9-19 | Returns the stored tag exactly when the id is valid, it exists, and it belongs to the owner when one is given. |
| TagCrud.GetTagByName | app/crud/tag.py:22-25 | None exactly when the owner has no tag of that name; otherwise one such tag. |
| TagCrud.GetTagByNameFindsTheTag | app/crud/tag.py:22-25 | With unique names, the tag found by a stored tag's name is that tag. |
| TagCrud.GetTags | app/crud/tag.py:28-36 | Exactly the owner's tags ranked in [skip, skip + limit) by name, each once, in that order; min(limit, owned - skip) of them. |
| TagCrud.GetNotesByTag | app/crud/tag.py:129-147 | [] for an invalid id. Otherwise exactly the owner's notes carrying the tag that rank in the most-recent-first window, each once, in that order. |
| TagCrud.NewTagKeepsConsistency | app/crud/tag.py:48-59 | A new tag with a fresh id, count 0 and an unused name preserves store consistency. |
| TagCrud.CreateTag | app/crud/tag.py:39-65 | ValueError, with nothing changed, exactly when the owner already has that name. Otherwise it inserts the tag with count 0, and consistency is preserved. |
| TagCrud.CreatedTagIsFoundByName | app/crud/tag.py:22-59 | A created tag is what get_tag_by_name then returns. |
| TagCrud.PatchTag | app/crud/tag.py:81-96 | `$set` keeps the id, owner, counter and creation time, and applies the requested name and colour. |
| TagCrud.UpdateTagKeepsConsistency | app/crud/tag.py:68-99 | An update without a name clash preserves store consistency. |
| TagCrud.UpdateTag | app/crud/tag.py:68-99 | None, with nothing changed, exactly when the caller does not own the tag. ValueError exactly on a rename to a name the owner already uses. Otherwise it stores the patched tag, and consistency is preserved. |
| TagCrud.DeleteTagKeepsConsistency | app/crud/tag.py:102-126 | Deleting a tag and pulling it from the owner's notes preserves store consistency. |
| TagCrud.DeleteTag | app/crud/tag.py:102-126 | True exactly when the caller owns the tag. It then removes the tag, and no note of the owner still carries it. Other owners' notes are untouched. It preserves consistency. |
| TagCrud.DeleteTagKeepsForeignReferences | app/crud/tag.py:120-124 | The `$pull` is limited to the owner's notes, so another owner's note keeps the deleted tag's id. |
| ShareCrud.GetShareById | app/crud/share.py:9-15 | Returns the stored grant exactly when the id is valid and exists. |
| ShareCrud.FirstGrant | app/crud/share.py:24-27 | find_one picks a grant of the given (note, user) pair. |
| ShareCrud.GetShare | app/crud/share.py:18-27 | Some exactly when both ids are valid and the pair has a grant. The result is a grant of that pair. |
| ShareCrud.GetShareFindsTheGrant | app/crud/share.py:18-27 | With unique grants, the grant found for a stored grant's pair is that grant. |
| ShareCrud.GetSharesForNote | app/crud/share.py:30-45 | [] for an invalid id. Otherwise exactly the note's first 100 grants in ascending id, each once: min(100, grants) of them. |
| ShareCrud.GrantsPageFacts | app/crud/share.py:36-37 | Looking up the first 100 grant ids of the note lists exactly those grants, all of that note. |
| ShareCrud.ShareRefusal | app/crud/share.py:52-67 | create_share goes ahead exactly when both ids are valid, the note and the user exist, and the user does not own the note. |
| ShareCrud.UpsertLeavesOneGrant | app/crud/share.py:69-92 | After the upsert the pair has exactly one grant, and every other pair's grants are unchanged. |
| ShareCrud.UpsertKeepsConsistency | app/crud/share.py:48-99 | A create_share that passes its checks preserves store consistency. |
| ShareCrud.UpsertGrantsThePair | app/crud/share.py:69-92 | After the upsert, get_share finds the pair's grant with the new permission and time. For a new pair, it finds the inserted grant. |
| ShareCrud.CreateShare | app/crud/share.py:48-99 | ValueError, with nothing changed, exactly when ShareRefusal applies. Otherwise it updates or inserts the pair's grant and returns what get_share then finds. It preserves consistency. |
| ShareCrud.Repermit | app/crud/share.py:115-118 | `$set` gives the new permission and update time and keeps the id, note, user and creation time. |
| ShareCrud.RepermitKeepsConsistency | app/crud/share.py:102-121 | Changing a grant's permission preserves store consistency. |
| ShareCrud.UpdateSharePermission | app/crud/share.py:102-121 | None, with nothing changed, exactly when no grant has that id. Otherwise it stores and returns the grant with the new permission. It preserves consistency. |
| ShareCrud.DeleteShareRevokes | app/crud/share.py:132-135 | With unique grants, deleting the pair's grant leaves the pair with none and every other pair as it was. |
| ShareCrud.DeleteShare | app/crud/share.py:124-137 | True exactly when get_share finds a grant. It then removes that one grant, and consistency is preserved. |
| UserCrud.GetUserByEmail | app/crud/user.py:10-13 | None exactly when no user has that e-mail; otherwise such a user. |
| UserCrud.GetUserByUsername | app/crud/user.py:16-19 | None exactly when no user has that name; otherwise such a user. |
| UserCrud.GetUserById | app/crud/user.py:22-27 | Returns the stored user exactly when the id is valid and exists. |
| UserCrud.GetUsers | app/crud/user.py:30-35 | Exactly the users ranked in [skip, skip + limit) by ascending id, each once, in that order; min(limit, users - skip) of them. |
| UserCrud.GetUserByEmailFindsTheUser | app/crud/user.py:10-13 | With unique e-mails, the user found by a stored e-mail is that user. |
| UserCrud.AuthenticateUser | app/crud/user.py:127-138 | When some user has the login as e-mail, success exactly when the password verifies against that user's hash, and then that user. Otherwise, when some user has it as name, the same for that user. When neither, None. A returned user always matches the login and the password. |
| UserCrud.LoginByEmailFindsTheUser | app/crud/user.py:127-138 | With unique e-mails, logging in by a user's e-mail with a verifying password returns that user. |
| UserCrud.LoginByUsernameFindsTheUser | app/crud/user.py:127-138 | With unique names and no user holding the name as e-mail, logging in by a user's name with a verifying password returns that user. |
| UserCrud.CreateUserRefusal | app/crud/user.py:42-50 | Refused exactly when the e-mail or the user name is taken. The e-mail is checked first. |
| UserCrud.NewUser | app/crud/user.py:53-66 | The new user is active, has the user role, and stores the hash of the password. |
| UserCrud.NewUserKeepsConsistency | app/crud/user.py:38-73 | A new user with a fresh id, an unused e-mail and an unused name preserves store consistency. |
| UserCrud.CreateUser | app/crud/user.py:38-73 | ValueError, with nothing changed, exactly when CreateUserRefusal applies. Otherwise it inserts NewUser, which get_user_by_email then finds. It preserves consistency. |
| UserCrud.UpdateUserRefusal | app/crud/user.py:89-103 | DuplicateEmail exactly when a changed e-mail is taken. DuplicateUsername exactly when there is no such clash and a changed name is taken. TypeError exactly when neither clash occurs and the password is null. None exactly when none of these holds. |
| UserCrud.PatchUser | app/crud/user.py:101-111 | `$set` keeps the id, role and creation time, applies the e-mail and name, and stores the hash of a new password. |
| UserCrud.UpdateUserKeepsConsistency | app/crud/user.py:76-113 | An update that passes its checks preserves store consistency. |
| UserCrud.UpdateUser | app/crud/user.py:76-113 | None, with nothing changed, for an unknown id. The refusal's error, with nothing changed, when refused. Otherwise it stores and returns the patched user. It preserves consistency. |
| UserCrud.DeleteUser | app/crud/user.py:116-124 | True exactly when the user exists. It then removes only that user, and consistency is preserved. |
| CollectionEndpoints.FirstRefused | app/api/endpoints/collections.py:109-115 | The index of the first note id that add_note_to_collection refuses. Every earlier one is accepted. |
| CollectionEndpoints.CanLinkFollowsOwners | app/api/endpoints/collections.py:109-115 | Whether a note can be added depends only on ownership, which the earlier iterations do not change. |
| CollectionEndpoints.CountKeepsOwners | app/crud/collection.py:168-171 | Moving a counter keeps every collection's owner. |
| CollectionEndpoints.RaisedByNothing | app/crud/collection.py:168-171 | Raising a counter by zero leaves the collections as they were. |
| CollectionEndpoints.RaisedOnceMore | app/crud/collection.py:168-171 | One more `$inc` of +1 on a counter raised d times gives the counter raised d + 1 times. |
| CollectionEndpoints.RowsPresentStep | app/api/endpoints/collections.py:109-115 | After one more accepted note, the prefix of accepted notes all have rows. |
| CollectionEndpoints.RowsExplainedStep | app/api/endpoints/collections.py:109-115 | After one more note, every new row belongs to an accepted note of the prefix. |
| CollectionEndpoints.LinkedPrefixStep | app/api/endpoints/collections.py:109-115 | The loop invariant survives one iteration. |
| CollectionEndpoints.AddNext | app/api/endpoints/collections.py:109-115 | One iteration: the note is added exactly when add_note_to_collection accepts it; the linked prefix then grows by that note, and the counter by the rows inserted. |
| CollectionEndpoints.AddNotesToCollection | app/api/endpoints/collections.py:100-117 | Success exactly when every note id is accepted. Otherwise it reports the first refused id. The notes before it are linked and nothing else is: there is no rollback. The collections are the old ones with the target's counter raised by the number of rows inserted. It preserves consistency. |
| CollectionEndpoints.RemoveNoteFromCollectionById | app/api/endpoints/collections.py:120-135 | Not found, with nothing changed, exactly when remove_note_from_collection refuses. Otherwise it removes one row and lowers the counter. |
| ShareEndpoints.AcceptsExactly | app/api/endpoints/shares.py:46-64 | For the caller's note, a user id is accepted exactly when it names an existing user other than the caller, whatever the case of its letters. |
| ShareEndpoints.Accepted | app/api/endpoints/shares.py:46-64 | The accepted ids, in request order. |
| ShareEndpoints.Refused | app/api/endpoints/shares.py:46-64 | The refused ids, in request order. |
| ShareEndpoints.AcceptedRefusedPartition | app/api/endpoints/shares.py:46-64 | Every requested id is in exactly one of the two lists, and their lengths add up to the request's. |
| ShareEndpoints.AcceptedNext | app/api/endpoints/shares.py:46-64 | One more iteration appends the id to exactly one of the two lists. |
| ShareEndpoints.DescribesStep | app/api/endpoints/shares.py:62 | One more grant in the response, for one more accepted user. |
| ShareEndpoints.UpsertKeepsOtherGrants | app/crud/share.py:69-92 | An upsert for one pair leaves the grant that get_share finds for any other pair unchanged. |
| ShareEndpoints.GrantedStep | app/api/endpoints/shares.py:56-62 | Earlier grants of the loop survive a later upsert. |
| ShareEndpoints.UpsertOnlyGrantsTo | app/crud/share.py:69-92 | With a fresh id, an upsert removes no grant and leaves every grant of another (note, user) pair as it was. The only grant it adds or changes is one of its own pair. |
| ShareEndpoints.OnlyGrantsToKeepsOtherPairs | app/api/endpoints/shares.py:46-64 | When the writes are confined to the note's grants to the target users, every other (note, user) pair has exactly the grants it had. |
| ShareEndpoints.OnlyGrantsToStep | app/api/endpoints/shares.py:46-64 | Writes confined to the note's grants to a set of users, followed by writes confined to one more user, are confined to the union. |
| ShareEndpoints.GrantStep | app/api/endpoints/shares.py:56-62 | One more accepted user keeps every grant of the batch and keeps the writes confined to the note's grants to accepted users. |
| ShareEndpoints.ShareWithOne | app/api/endpoints/shares.py:47-64 | A grant exactly when the id is accepted. It then upserts the pair's grant with the requested permission. It preserves consistency. |
| ShareEndpoints.ShareNext | app/api/endpoints/shares.py:46-64 | One iteration: the id joins the accepted list exactly when Accepts holds, else the failed list; the batch's grants and the confinement of its writes carry over. |
| ShareEndpoints.ShareWithEach | app/api/endpoints/shares.py:46-64 | After the loop, the failed list is the refused ids, and the response describes one grant per accepted id. Every accepted user holds the permission. No grant is removed, every grant of another (note, user) pair stays as it was, and the only grants added or changed are the note's grants to accepted users. |
| ShareEndpoints.ShareNote | app/api/endpoints/shares.py:21-75 | Not found, with nothing changed, unless the caller owns the note. Otherwise the failed list is the refused ids and the body describes one grant per accepted id. Every accepted user then holds the permission. Every grant of another (note, user) pair stays as it was, and the only grants added or changed are the note's grants to accepted users. The reply is a 500 exactly when some id was accepted. It preserves consistency. |
| ShareEndpoints.GetNoteShares | app/api/endpoints/shares.py:78-99 | Not found exactly when the caller does not own the note. Otherwise the body is exactly the note's first 100 grants in ascending id, and the reply is a 500 exactly when there is at least one. |
| ShareEndpoints.GrantOfOtherNote | app/api/endpoints/shares.py:132 | The text comparison of note ids agrees with id equality only for a lower-case id. Any upper-case letter makes every grant look foreign. |
| ShareEndpoints.UpdateShareById | app/api/endpoints/shares.py:102-143 | Not found unless the caller owns the note, or when the grant is missing. Bad request exactly when the stored note id differs from the path text. Otherwise, and only then, the grant gets the new permission and the reply is a 500 carrying it. It preserves consistency. |
| ShareEndpoints.RemoveShare | app/api/endpoints/shares.py:146-175 | Not found unless the caller owns the note. Done exactly when the caller owns it and the pair has a grant; then that grant is removed, after which the pair has none. It preserves consistency. |

## Left out

- I/O and concurrency. Each store call is one atomic step and requests run one
  after another. The source uses no transactions, so interleaved requests can
  break the invariants. The model does not capture that.
- New ids, the clock and passwords are parameters:
  - `ObjectId()` is the `id`/`ids` parameters, required to be unused;
  - `datetime.utcnow()` is `now`;
  - `get_password_hash` and `verify_password` are `hash` and `verify`.
- MongoDB's text index and its scoring are the `textScore` parameter. The model
  states only the order of the results and that they match.
- Natural order is taken as ascending id. MongoDB leaves it unspecified, and
  leaves ties within a sort key unordered. This affects `find_one`,
  `to_list(length=1000)`, `get_users` and `get_shares_for_note`; the model
  breaks ties by id.
- CollectionCrud.GetCollections: `requires limit >= 1`. It only mirrors the
  endpoint's `Query(ge=1)`; no proof needs it. It is kept because MongoDB reads a
  limit of 0 as "no limit", while `Order.Page` would give `[]`.
- CollectionCrud.GetCollectionWithNotes: `requires limit >= 1`, which only
  mirrors `Query(ge=1)`, for the same reason.
- NoteCrud.GetNotes: `requires limit >= 1`, which only mirrors `Query(ge=1)`, for
  the same reason.
- TagCrud.GetTags: `requires limit >= 1`, which only mirrors `Query(ge=1)`, for
  the same reason.
- TagCrud.GetNotesByTag: `requires limit >= 1`, which only mirrors
  `Query(ge=1)`, for the same reason.
- UserCrud.GetUsers and NoteCrud.GetSharedNotes accept a limit of 0 and then
  return `[]`, not MongoDB's unlimited listing. `get_users` has no endpoint
  caller, and `read_shared_notes` bounds `limit` with `Query(ge=1)`.
- Authentication is not modelled. Every endpoint takes `caller`, the id of an
  already authenticated user. As written, `get_current_user`
  (`app/core/dependencies.py:18`) looks up `_id` with the token's string id. That
  never equals the ObjectId `_id` stored by `create_user`, so it answers 401 to
  every request.
- Pydantic request validation (field lengths, e-mail syntax, enum parsing) is not
  modelled. Requests arrive already parsed into the request datatypes.
- A note's `metadata` is a `map<string, string>`; the source stores any JSON
  object.
- A document with a missing field is not distinguished from one with a null
  field. In `note.get("tags", [])`, a missing list counts as empty and a null one
  raises. The model has only null, because `create_note` always writes the field.
- Counters are unbounded integers. The 64-bit limit of a stored integer is not
  modelled.
- Converting ids back to strings in returned documents is not modelled. Results
  carry `Oid` values.
- The 403 checks in `app/api/endpoints/shares.py` (lines 37-41, 93-97, 119-123,
  162-166) are not modelled. They follow a lookup filtered by the caller as
  owner, so they cannot fire.
- The `deleted_count == 0` checks in `delete_collection`, `delete_note` and
  `delete_tag` are not modelled. They follow a successful owned lookup, so
  without concurrency they cannot fire.
- ShareEndpoints.ShareNote models the response message (`app/api/endpoints/shares.py:66-69`)
  only by the list of failed ids whose length it reports. The source's
  `ShareResponse` carries the message text, not the list.
- The endpoints' message texts are not modelled.
- The `except Exception` around `create_share` catches only the `ValueError`s it
  raises. Driver errors are not modelled.
- The default `permission=READ` of `create_share` is not modelled. Every caller
  in the modelled endpoints passes a permission, so the model takes it as a
  parameter.
- The request's `is_active` is not modelled as stored. `create_user` ignores it
  and always stores `True`, and so does the model.
- `app/api/endpoints/collections.py:120-124` does not parse. The parameter
  `current_user` has no default, yet it follows parameters with `Path(...)`
  defaults, which is a syntax error. So neither that module nor
  `app/api/api.py`, which imports it, can load. `CollectionEndpoints` models what
  the two endpoints evidently mean to do.
- Of the endpoint modules, only `app/api/endpoints/shares.py` and
  `app/api/endpoints/collections.py` are modelled. The notes, tags and auth
  endpoint modules are not part of this model, and neither is their mapping of
  CRUD results to HTTP statuses.
