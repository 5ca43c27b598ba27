/** app/crud/share.py: grants of access to a note (shared_notes), at most one per
 *  (note, user) pair, never to the note's owner.
 */
module ShareCrud {
  import opened Ids
  import opened Maybe
  import opened Documents
  import opened Order
  import opened Consistency
  import opened Database

  // ---------------------------------------------------------------------------
  // Reads

  /** get_share_by_id. */
  function GetShareById(shares: map<Oid, Share>, shareId: string): (r: Option<Share>)
    ensures r.Some? <==> ValidId(shareId) && ToOid(shareId) in shares
    ensures r.Some? ==> r.value == shares[ToOid(shareId)]
  {
    if ValidId(shareId) && ToOid(shareId) in shares then Some(shares[ToOid(shareId)]) else None
  }

  /** The grant get_share finds for a pair with at least one grant: the first in natural order. */
  function FirstGrant(shares: map<Oid, Share>, n: Oid, u: Oid): (g: Oid)
    requires GrantsFor(shares, n, u) != {}
    ensures g in shares && shares[g].note == n && shares[g].user == u
  {
    FirstOf(GrantsFor(shares, n, u))
  }

  /** get_share: the grant of the note to the user, if there is one. */
  function GetShare(shares: map<Oid, Share>, noteId: string, userId: string): (r: Option<Share>)
    ensures r.Some? <==> ValidId(noteId) && ValidId(userId) && GrantsFor(shares, ToOid(noteId), ToOid(userId)) != {}
    ensures r.Some? ==> r.value in shares.Values && r.value.note == ToOid(noteId) && r.value.user == ToOid(userId)
  {
    if !ValidId(noteId) || !ValidId(userId) then None
    else
      var n, u := ToOid(noteId), ToOid(userId);
      if GrantsFor(shares, n, u) == {} then None else Some(shares[FirstGrant(shares, n, u)])
  }

  /** With one grant per pair, get_share finds exactly that grant. */
  lemma GetShareFindsTheGrant(shares: map<Oid, Share>, g: Oid)
    requires GrantsUnique(shares) && g in shares
    ensures GetShare(shares, shares[g].note, shares[g].user) == Some(shares[g])
  {
    var n, u := shares[g].note, shares[g].user;
    OidRoundTrip(n);
    OidRoundTrip(u);
    GrantsForSingle(shares, n, u, g);
  }

  function GrantsOfNote(shares: map<Oid, Share>, n: Oid): set<Oid> {
    set g | g in shares && shares[g].note == n
  }

  /** get_shares_for_note: the note's grants, at most 100, in natural order. */
  function GetSharesForNote(shares: map<Oid, Share>, noteId: string): (r: seq<Share>)
    ensures !ValidId(noteId) ==> r == []
    ensures ValidId(noteId) ==>
              && |r| == (if |GrantsOfNote(shares, ToOid(noteId))| <= 100 then |GrantsOfNote(shares, ToOid(noteId))| else 100)
              && ListsWindow(r, shares, Window(GrantsOfNote(shares, ToOid(noteId)), Natural, 0, 100))
    ensures forall i :: 0 <= i < |r| ==> r[i] in shares.Values && r[i].note == ToOid(noteId)
  {
    if !ValidId(noteId) then []
    else
      var ids := TakeNatural(GrantsOfNote(shares, ToOid(noteId)), 100);
      assert forall i :: 0 <= i < |ids| ==> ids[i] in ids;
      GrantsPageFacts(shares, ToOid(noteId), ids);
      Lookup(shares, ids)
  }

  /** Looking up the ids of the first 100 grants of note `n` lists that window. */
  lemma GrantsPageFacts(shares: map<Oid, Share>, n: Oid, ids: seq<Oid>)
    requires forall x :: x in ids <==> x in Window(GrantsOfNote(shares, n), Natural, 0, 100)
    requires |ids| == |Window(GrantsOfNote(shares, n), Natural, 0, 100)|
    requires forall i :: 0 <= i < |ids| ==> ids[i] in GrantsOfNote(shares, n)
    ensures ListsWindow(Lookup(shares, ids), shares, Window(GrantsOfNote(shares, n), Natural, 0, 100))
    ensures forall i :: 0 <= i < |ids| ==> Lookup(shares, ids)[i] in shares.Values && Lookup(shares, ids)[i].note == n
  {
    LookupStored(shares, ids);
    LookupListsWindow(shares, ids, Window(GrantsOfNote(shares, n), Natural, 0, 100));
  }

  // ---------------------------------------------------------------------------
  // Writes

  /** Why create_share refuses, in the order it checks; None when it goes ahead. */
  function ShareRefusal(notes: map<Oid, Note>, users: map<Oid, User>, noteId: string, userId: string): (r: Option<Reason>)
    ensures r.None? <==>
              && ValidId(noteId) && ValidId(userId)
              && ToOid(noteId) in notes && ToOid(userId) in users
              && notes[ToOid(noteId)].owner != ToOid(userId)
  {
    if !ValidId(noteId) || !ValidId(userId) then Some(InvalidId)
    else if ToOid(noteId) !in notes then Some(NoteNotFound)
    else if ToOid(userId) !in users then Some(UserNotFound)
    else if notes[ToOid(noteId)].owner == ToOid(userId) then Some(ShareWithOwner)
    else None
  }

  /** The grants after create_share goes ahead: the pair's grant gets the new
      permission, or a new grant is inserted when the pair has none. */
  function Upsert(shares: map<Oid, Share>, n: Oid, u: Oid, permission: Permission, id: Oid, now: Time): map<Oid, Share> {
    if GrantsFor(shares, n, u) != {} then
      var g := FirstGrant(shares, n, u);
      shares[g := shares[g].(permission := Some(permission), updatedAt := now)]
    else
      shares[id := Share(id, n, u, Some(permission), now, now)]
  }

  /** An upsert leaves exactly one grant for the pair when it had at most one, and
      every other pair's grants as they were. */
  lemma UpsertLeavesOneGrant(shares: map<Oid, Share>, n: Oid, u: Oid, permission: Permission, id: Oid, now: Time)
    requires |GrantsFor(shares, n, u)| <= 1 && id !in shares
    ensures var after := Upsert(shares, n, u, permission, id, now);
            && |GrantsFor(after, n, u)| == 1
            && (forall m, v :: (m, v) != (n, u) ==> GrantsFor(after, m, v) == GrantsFor(shares, m, v))
  {
    var after := Upsert(shares, n, u, permission, id, now);
    var before := GrantsFor(shares, n, u);
    if before != {} {
      var g := FirstGrant(shares, n, u);
      forall x | x in before ensures x == g {
        if x != g {
          TwoMembers(before, x, g);
        }
      }
      assert before == {g};
      assert GrantsFor(after, n, u) == {g};
    } else {
      assert GrantsFor(after, n, u) == {id};
    }
    forall m, v | (m, v) != (n, u) ensures GrantsFor(after, m, v) == GrantsFor(shares, m, v) {
    }
  }

  /** A refused request is refused before any write; an accepted one keeps every
      condition of the store. */
  lemma UpsertKeepsConsistency(users: map<Oid, User>, notes: map<Oid, Note>, tags: map<Oid, Tag>,
                               cs: map<Oid, Collection>, links: map<Oid, Link>, shares: map<Oid, Share>,
                               noteId: string, userId: string, permission: Permission, id: Oid, now: Time)
    requires StoreConsistent(users, notes, tags, cs, links, shares)
    requires ShareRefusal(notes, users, noteId, userId).None? && id !in shares
    ensures StoreConsistent(users, notes, tags, cs, links,
                            Upsert(shares, ToOid(noteId), ToOid(userId), permission, id, now))
  {
    var n, u := ToOid(noteId), ToOid(userId);
    var after := Upsert(shares, n, u, permission, id, now);
    if GrantsFor(shares, n, u) != {} {
      var g := FirstGrant(shares, n, u);
      GrantsForSingle(shares, n, u, g);
    } else {
      forall a, b | a in after && b in after && after[a].note == after[b].note && after[a].user == after[b].user
        ensures a == b
      {
        assert a !in GrantsFor(shares, n, u) && b !in GrantsFor(shares, n, u);
      }
    }
  }

  /** After an upsert, get_share finds the pair's grant with the new permission;
      when the pair had no grant, it is the inserted one. */
  lemma UpsertGrantsThePair(shares: map<Oid, Share>, noteId: string, userId: string, permission: Permission,
                            id: Oid, now: Time)
    requires ValidId(noteId) && ValidId(userId) && id !in shares
    ensures var n, u := ToOid(noteId), ToOid(userId);
            var found := GetShare(Upsert(shares, n, u, permission, id, now), noteId, userId);
            && found.Some? && found.value.permission == Some(permission) && found.value.updatedAt == now
            && (GrantsFor(shares, n, u) == {} ==> found.value == Share(id, n, u, Some(permission), now, now))
  {
    var n, u := ToOid(noteId), ToOid(userId);
    var after := Upsert(shares, n, u, permission, id, now);
    if GrantsFor(shares, n, u) != {} {
      assert GrantsFor(after, n, u) == GrantsFor(shares, n, u);
    } else {
      assert GrantsFor(after, n, u) == {id};
    }
  }

  method CreateShare(db: Store, noteId: string, userId: string, permission: Permission, id: Oid, now: Time)
    returns (r: Result<Share>)
    requires id !in db.shares
    modifies db
    ensures r.Err? <==> ShareRefusal(old(db.notes), old(db.users), noteId, userId).Some?
    ensures r.Err? ==> r.error == ValueError(ShareRefusal(old(db.notes), old(db.users), noteId, userId).value) && unchanged(db)
    ensures r.Ok? ==>
              && db.shares == Upsert(old(db.shares), ToOid(noteId), ToOid(userId), permission, id, now)
              && GetShare(db.shares, noteId, userId) == Some(r.value)
              && r.value.permission == Some(permission) && r.value.updatedAt == now
    ensures r.Ok? && GrantsFor(old(db.shares), ToOid(noteId), ToOid(userId)) == {} ==>
              r.value == Share(id, ToOid(noteId), ToOid(userId), Some(permission), now, now)
    ensures db.users == old(db.users) && db.notes == old(db.notes) && db.tags == old(db.tags)
    ensures db.collections == old(db.collections) && db.links == old(db.links)
    ensures old(db.Consistent()) ==> db.Consistent()
  {
    var refusal := ShareRefusal(db.notes, db.users, noteId, userId);
    if refusal.Some? {
      return Err(ValueError(refusal.value));
    }
    var n, u := ToOid(noteId), ToOid(userId);
    ghost var wasConsistent := db.Consistent();
    ghost var shares0 := db.shares;
    UpsertGrantsThePair(db.shares, noteId, userId, permission, id, now);
    var existing := GetShare(db.shares, noteId, userId);
    if existing.Some? {
      var g := FirstGrant(db.shares, n, u);
      db.shares := db.shares[g := db.shares[g].(permission := Some(permission), updatedAt := now)];
      r := Ok(GetShare(db.shares, noteId, userId).value);
    } else {
      var s := Share(id, n, u, Some(permission), now, now);
      db.shares := db.shares[id := s];
      r := Ok(s);
    }
    if wasConsistent {
      UpsertKeepsConsistency(db.users, db.notes, db.tags, db.collections, db.links, shares0, noteId, userId, permission, id, now);
    }
  }

  /** The grant after update_share_permission. */
  function Repermit(s: Share, permission: Option<Permission>, now: Time): (r: Share)
    ensures r.permission == permission && r.updatedAt == now
    ensures r.id == s.id && r.note == s.note && r.user == s.user && r.createdAt == s.createdAt
  {
    s.(permission := permission, updatedAt := now)
  }

  /** Changing a grant's permission keeps every condition: the pair it grants is
      the same. */
  lemma RepermitKeepsConsistency(users: map<Oid, User>, notes: map<Oid, Note>, tags: map<Oid, Tag>,
                                 cs: map<Oid, Collection>, links: map<Oid, Link>, shares: map<Oid, Share>,
                                 g: Oid, permission: Option<Permission>, now: Time)
    requires StoreConsistent(users, notes, tags, cs, links, shares) && g in shares
    ensures StoreConsistent(users, notes, tags, cs, links, shares[g := Repermit(shares[g], permission, now)])
  {
  }

  method UpdateSharePermission(db: Store, shareId: string, permission: Option<Permission>, now: Time)
    returns (r: Option<Share>)
    modifies db
    ensures r.None? <==> GetShareById(old(db.shares), shareId).None?
    ensures r.None? ==> unchanged(db)
    ensures r.Some? ==>
              var g := ToOid(shareId);
              && db.shares == old(db.shares)[g := Repermit(old(db.shares)[g], permission, now)]
              && r.value == db.shares[g]
    ensures db.users == old(db.users) && db.notes == old(db.notes) && db.tags == old(db.tags)
    ensures db.collections == old(db.collections) && db.links == old(db.links)
    ensures old(db.Consistent()) ==> db.Consistent()
  {
    if !ValidId(shareId) {
      return None;
    }
    var found := GetShareById(db.shares, shareId);
    if found.None? {
      return None;
    }
    var g := ToOid(shareId);
    ghost var wasConsistent, shares0 := db.Consistent(), db.shares;
    db.shares := db.shares[g := Repermit(found.value, permission, now)];
    r := Some(db.shares[g]);
    if wasConsistent {
      RepermitKeepsConsistency(db.users, db.notes, db.tags, db.collections, db.links, shares0, g, permission, now);
    }
  }

  /** With one grant per pair, delete_share leaves the pair without a grant. */
  lemma DeleteShareRevokes(shares: map<Oid, Share>, n: Oid, u: Oid)
    requires GrantsUnique(shares) && GrantsFor(shares, n, u) != {}
    ensures GrantsFor(shares - {FirstGrant(shares, n, u)}, n, u) == {}
    ensures forall m, v :: (m, v) != (n, u) ==> GrantsFor(shares - {FirstGrant(shares, n, u)}, m, v) == GrantsFor(shares, m, v)
  {
    var g := FirstGrant(shares, n, u);
    GrantsForSingle(shares, n, u, g);
    assert GrantsFor(shares - {g}, n, u) == GrantsFor(shares, n, u) - {g};
  }

  method DeleteShare(db: Store, noteId: string, userId: string) returns (ok: bool)
    modifies db
    ensures ok <==> GetShare(old(db.shares), noteId, userId).Some?
    ensures !ok ==> unchanged(db)
    ensures ok ==> db.shares == old(db.shares) - {FirstGrant(old(db.shares), ToOid(noteId), ToOid(userId))}
    ensures db.users == old(db.users) && db.notes == old(db.notes) && db.tags == old(db.tags)
    ensures db.collections == old(db.collections) && db.links == old(db.links)
    ensures old(db.Consistent()) ==> db.Consistent()
  {
    if !ValidId(noteId) || !ValidId(userId) {
      return false;
    }
    var n, u := ToOid(noteId), ToOid(userId);
    if GrantsFor(db.shares, n, u) == {} {
      return false;
    }
    db.shares := db.shares - {FirstGrant(db.shares, n, u)};
    ok := true;
  }
}
