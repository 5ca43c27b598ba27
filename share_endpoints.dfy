/** app/api/endpoints/shares.py: granting a note to a batch of users, listing,
 *  changing and revoking its grants, as HTTP replies. The caller is the
 *  authenticated user, whose id the endpoints hold as the text of an ObjectId.
 */
module ShareEndpoints {
  import opened Ids
  import opened Maybe
  import opened Documents
  import opened Order
  import opened Consistency
  import opened Database
  import opened ShareCrud
  import NoteCrud
  import UserCrud

  /** Why an endpoint answers 404. */
  datatype Missing = NoteMissing | GrantMissing

  /** An endpoint's reply: 404, 400, the response body, or a 500 raised after
      the writes because the body the endpoint built does not fit its response
      schema. The grants the crud layer hands back carry `_id` but no `id`,
      which the Share schema requires, so every reply that holds a grant is a
      500; the body is kept so that what the endpoint built can be stated. */
  datatype Reply<T> = NotFound(what: Missing) | BadRequest | Done(body: T) | Unserializable(body: T)

  /** ShareResponse: whether anything was granted, the grants created or
      updated, and the user ids that failed. The message only reports
      |shares| and |failed|. */
  datatype ShareResponse = ShareResponse(success: bool, shares: seq<Share>, failed: seq<string>)

  // ---------------------------------------------------------------------------
  // share_note

  /** The loop's three tests for one requested user id, in its order: the user
      exists, the id is not the caller's (compared as text), and create_share
      does not raise. */
  predicate Accepts(users: map<Oid, User>, notes: map<Oid, Note>, noteId: string, caller: Oid, userId: string) {
    && UserCrud.GetUserById(users, userId).Some?
    && userId != caller
    && ShareRefusal(notes, users, noteId, userId).None?
  }

  /** For a note the caller owns, a user id is accepted exactly when it names an
      existing user other than the caller, however its letters are cased: an
      upper-case spelling of the caller's own id passes the text comparison but
      create_share refuses it. */
  lemma AcceptsExactly(users: map<Oid, User>, notes: map<Oid, Note>, noteId: string, caller: Oid, userId: string)
    requires NoteCrud.OwnsNote(notes, noteId, caller)
    ensures Accepts(users, notes, noteId, caller, userId) <==>
              ValidId(userId) && ToOid(userId) in users && ToOid(userId) != caller
  {
    OidRoundTrip(caller);
  }

  /** The requested user ids that end up granted, in request order. */
  function Accepted(users: map<Oid, User>, notes: map<Oid, Note>, noteId: string, caller: Oid,
                    userIds: seq<string>): (r: seq<string>)
    ensures |r| <= |userIds|
    ensures forall x :: x in r ==> x in userIds && Accepts(users, notes, noteId, caller, x)
    decreases |userIds|
  {
    if userIds == [] then []
    else
      var front, last := userIds[..|userIds| - 1], userIds[|userIds| - 1];
      var rest := Accepted(users, notes, noteId, caller, front);
      assert forall x :: x in front ==> x in userIds;
      if Accepts(users, notes, noteId, caller, last) then rest + [last] else rest
  }

  /** The requested user ids that end up in failed_users, in request order. */
  function Refused(users: map<Oid, User>, notes: map<Oid, Note>, noteId: string, caller: Oid,
                   userIds: seq<string>): (r: seq<string>)
    ensures |r| <= |userIds|
    ensures forall x :: x in r ==> x in userIds && !Accepts(users, notes, noteId, caller, x)
    decreases |userIds|
  {
    if userIds == [] then []
    else
      var front, last := userIds[..|userIds| - 1], userIds[|userIds| - 1];
      var rest := Refused(users, notes, noteId, caller, front);
      assert forall x :: x in front ==> x in userIds;
      if Accepts(users, notes, noteId, caller, last) then rest else rest + [last]
  }

  /** Every requested user id lands in exactly one of the two lists, and the
      lists together are as long as the request. */
  lemma {:induction false} AcceptedRefusedPartition(users: map<Oid, User>, notes: map<Oid, Note>, noteId: string,
                                                    caller: Oid, userIds: seq<string>)
    ensures |Accepted(users, notes, noteId, caller, userIds)| + |Refused(users, notes, noteId, caller, userIds)| == |userIds|
    ensures forall x :: x in userIds ==>
              && (x in Accepted(users, notes, noteId, caller, userIds) <==> Accepts(users, notes, noteId, caller, x))
              && (x in Refused(users, notes, noteId, caller, userIds) <==> !Accepts(users, notes, noteId, caller, x))
  {
    if userIds != [] {
      var front, last := userIds[..|userIds| - 1], userIds[|userIds| - 1];
      AcceptedRefusedPartition(users, notes, noteId, caller, front);
      var accepted, refused := Accepted(users, notes, noteId, caller, front), Refused(users, notes, noteId, caller, front);
      assert userIds == front + [last];
      if Accepts(users, notes, noteId, caller, last) {
        assert Accepted(users, notes, noteId, caller, userIds) == accepted + [last];
        assert Refused(users, notes, noteId, caller, userIds) == refused;
      } else {
        assert Accepted(users, notes, noteId, caller, userIds) == accepted;
        assert Refused(users, notes, noteId, caller, userIds) == refused + [last];
      }
    }
  }

  /** The filters on one more request element. */
  lemma AcceptedNext(users: map<Oid, User>, notes: map<Oid, Note>, noteId: string, caller: Oid,
                     userIds: seq<string>, i: nat)
    requires i < |userIds|
    ensures var u := userIds[i];
            && Accepted(users, notes, noteId, caller, userIds[..i + 1]) ==
                 Accepted(users, notes, noteId, caller, userIds[..i])
                   + (if Accepts(users, notes, noteId, caller, u) then [u] else [])
            && Refused(users, notes, noteId, caller, userIds[..i + 1]) ==
                 Refused(users, notes, noteId, caller, userIds[..i])
                   + (if Accepts(users, notes, noteId, caller, u) then [] else [u])
  {
    assert userIds[..i + 1][..i] == userIds[..i];
  }

  /** The response's grants are, one for one, grants of note `n` with
      permission `p` to the users `us`. */
  predicate Describes(shares: seq<Share>, n: Oid, us: seq<string>, p: Permission) {
    && |shares| == |us|
    && forall k :: 0 <= k < |shares| ==>
         ValidId(us[k]) && shares[k].note == n && shares[k].user == ToOid(us[k]) && shares[k].permission == Some(p)
  }

  /** One more grant in the response, for one more accepted user. */
  lemma DescribesStep(shares: seq<Share>, n: Oid, us: seq<string>, p: Permission, s: Share, u: string)
    requires Describes(shares, n, us, p)
    requires ValidId(u) && s.note == n && s.user == ToOid(u) && s.permission == Some(p)
    ensures Describes(shares + [s], n, us + [u], p)
  {
    var shares', us' := shares + [s], us + [u];
    forall k | 0 <= k < |shares'|
      ensures ValidId(us'[k]) && shares'[k].note == n && shares'[k].user == ToOid(us'[k]) && shares'[k].permission == Some(p)
    {
      if k < |shares| {
        assert shares'[k] == shares[k] && us'[k] == us[k];
      }
    }
  }

  /** Each of the users `us` holds a grant on the note with permission `p`. */
  ghost predicate Granted(shares: map<Oid, Share>, noteId: string, us: seq<string>, p: Permission) {
    forall k :: 0 <= k < |us| ==>
      GetShare(shares, noteId, us[k]).Some? && GetShare(shares, noteId, us[k]).value.permission == Some(p)
  }

  /** An upsert for one pair leaves the grant get_share finds for any other pair
      as it was. */
  lemma UpsertKeepsOtherGrants(shares: map<Oid, Share>, n: Oid, u: Oid, p: Permission, id: Oid, now: Time,
                               noteId: string, userId: string)
    requires id !in shares && ValidId(noteId) && ValidId(userId)
    requires (ToOid(noteId), ToOid(userId)) != (n, u)
    ensures GetShare(Upsert(shares, n, u, p, id, now), noteId, userId) == GetShare(shares, noteId, userId)
  {
    var after := Upsert(shares, n, u, p, id, now);
    var m, v := ToOid(noteId), ToOid(userId);
    assert GrantsFor(after, m, v) == GrantsFor(shares, m, v);
  }

  /** Granting to one more user keeps every earlier grant of the batch: a later
      upsert either touches another pair or sets the same permission again. */
  lemma GrantedStep(shares0: map<Oid, Share>, shares1: map<Oid, Share>, noteId: string, us: seq<string>,
                    u: string, p: Permission, id: Oid, now: Time)
    requires Granted(shares0, noteId, us, p) && id !in shares0
    requires ValidId(noteId) && ValidId(u)
    requires GetShare(shares1, noteId, u).Some? && GetShare(shares1, noteId, u).value.permission == Some(p)
    requires shares1 == Upsert(shares0, ToOid(noteId), ToOid(u), p, id, now)
    ensures Granted(shares1, noteId, us + [u], p)
  {
    var us' := us + [u];
    forall k | 0 <= k < |us'|
      ensures GetShare(shares1, noteId, us'[k]).Some? && GetShare(shares1, noteId, us'[k]).value.permission == Some(p)
    {
      if k < |us| {
        assert us'[k] == us[k];
        assert GetShare(shares0, noteId, us[k]).Some?;
        if ToOid(us[k]) != ToOid(u) {
          UpsertKeepsOtherGrants(shares0, ToOid(noteId), ToOid(u), p, id, now, noteId, us[k]);
        }
      }
    }
  }

  /** The parseable user ids of `us`, as ObjectIds. */
  function Targets(us: seq<string>): set<Oid> {
    set u | u in us && ValidId(u) :: ToOid(u)
  }

  /** `after` keeps every grant of `before`, leaves each grant of another
      (note, user) pair as it was, and each grant it adds or changes grants note
      `n` to one of `targets`. */
  ghost predicate OnlyGrantsTo(before: map<Oid, Share>, after: map<Oid, Share>, n: Oid, targets: set<Oid>) {
    && (forall g :: g in before ==> g in after)
    && (forall g :: g in before && (before[g].note != n || before[g].user !in targets) ==> after[g] == before[g])
    && (forall g :: g in after && (g !in before || after[g] != before[g]) ==>
          after[g].note == n && after[g].user in targets)
  }

  /** An upsert touches only the pair's own grant. */
  lemma UpsertOnlyGrantsTo(shares: map<Oid, Share>, n: Oid, u: Oid, p: Permission, id: Oid, now: Time)
    requires id !in shares
    ensures OnlyGrantsTo(shares, Upsert(shares, n, u, p, id, now), n, {u})
  {
    if GrantsFor(shares, n, u) != {} {
      var g := FirstGrant(shares, n, u);
      assert shares[g].note == n && shares[g].user == u;
    }
  }

  /** Writes confined to note `n` and `targets` leave the grants of every other
      (note, user) pair exactly as they were. */
  lemma OnlyGrantsToKeepsOtherPairs(before: map<Oid, Share>, after: map<Oid, Share>, n: Oid, targets: set<Oid>,
                                    m: Oid, v: Oid)
    requires OnlyGrantsTo(before, after, n, targets)
    requires m != n || v !in targets
    ensures GrantsFor(after, m, v) == GrantsFor(before, m, v)
  {
    forall g | g in GrantsFor(after, m, v) ensures g in GrantsFor(before, m, v) {
      assert g in before && after[g] == before[g];
    }
    forall g | g in GrantsFor(before, m, v) ensures g in GrantsFor(after, m, v) {
      assert after[g] == before[g];
    }
  }

  /** Two rounds of writes, each confined to its targets, are confined to both. */
  lemma OnlyGrantsToStep(s0: map<Oid, Share>, s1: map<Oid, Share>, s2: map<Oid, Share>, n: Oid,
                         targets: set<Oid>, u: Oid)
    requires OnlyGrantsTo(s0, s1, n, targets) && OnlyGrantsTo(s1, s2, n, {u})
    ensures OnlyGrantsTo(s0, s2, n, targets + {u})
  {
    forall g | g in s2 && (g !in s0 || s2[g] != s0[g]) ensures s2[g].note == n && s2[g].user in targets + {u} {
      if g in s1 && s2[g] == s1[g] {
        assert g !in s0 || s1[g] != s0[g];
      }
    }
  }

  /** One more accepted user: the batch's grants all hold, and the writes stay
      confined to the note's grants to the accepted users. */
  lemma GrantStep(before: map<Oid, Share>, shares0: map<Oid, Share>, shares1: map<Oid, Share>, noteId: string,
                  accepted: seq<string>, u: string, p: Permission, id: Oid, now: Time)
    requires Granted(shares0, noteId, accepted, p) && id !in shares0
    requires ValidId(noteId) && ValidId(u)
    requires OnlyGrantsTo(before, shares0, ToOid(noteId), Targets(accepted))
    requires GetShare(shares1, noteId, u).Some? && GetShare(shares1, noteId, u).value.permission == Some(p)
    requires shares1 == Upsert(shares0, ToOid(noteId), ToOid(u), p, id, now)
    ensures Granted(shares1, noteId, accepted + [u], p)
    ensures OnlyGrantsTo(before, shares1, ToOid(noteId), Targets(accepted + [u]))
  {
    GrantedStep(shares0, shares1, noteId, accepted, u, p, id, now);
    UpsertOnlyGrantsTo(shares0, ToOid(noteId), ToOid(u), p, id, now);
    OnlyGrantsToStep(before, shares0, shares1, ToOid(noteId), Targets(accepted), ToOid(u));
    assert Targets(accepted + [u]) == Targets(accepted) + {ToOid(u)};
  }

  /** One pass of share_note's loop: the target must exist and differ from the
      caller as text, and create_share must not raise; on success the grant it
      wrote or updated is returned. */
  method ShareWithOne(db: Store, noteId: string, userId: string, permission: Permission, caller: Oid,
                      id: Oid, now: Time) returns (s: Option<Share>)
    requires id !in db.shares
    modifies db
    ensures s.Some? <==> Accepts(old(db.users), old(db.notes), noteId, caller, userId)
    ensures s.None? ==> unchanged(db)
    ensures s.Some? ==>
              && db.shares == Upsert(old(db.shares), ToOid(noteId), ToOid(userId), permission, id, now)
              && GetShare(db.shares, noteId, userId) == Some(s.value)
              && s.value.note == ToOid(noteId) && s.value.user == ToOid(userId)
              && s.value.permission == Some(permission)
    ensures forall x :: x in db.shares ==> x in old(db.shares) || x == id
    ensures db.users == old(db.users) && db.notes == old(db.notes) && db.tags == old(db.tags)
    ensures db.collections == old(db.collections) && db.links == old(db.links)
    ensures old(db.Consistent()) ==> db.Consistent()
  {
    var target := UserCrud.GetUserById(db.users, userId);
    if target.None? || userId == caller {
      return None;
    }
    var created := CreateShare(db, noteId, userId, permission, id, now);
    if created.Err? {
      return None;
    }
    s := Some(created.value);
  }

  /** share_note: 404 unless the caller owns the note; otherwise every requested
      user id is tried in order, none aborting the batch, and the only grants
      written are the note's grants to the accepted users. When some user was
      granted, building the response fails after the writes (a 500). */
  method ShareNote(db: Store, noteId: string, userIds: seq<string>, permission: Permission, caller: Oid,
                   ids: seq<Oid>, now: Time) returns (r: Reply<ShareResponse>)
    requires |ids| == |userIds|
    requires forall i, j :: 0 <= i < j < |ids| ==> ids[i] != ids[j]
    requires forall i :: 0 <= i < |ids| ==> ids[i] !in db.shares
    modifies db
    ensures !NoteCrud.OwnsNote(old(db.notes), noteId, caller) ==> r == NotFound(NoteMissing) && unchanged(db)
    ensures NoteCrud.OwnsNote(old(db.notes), noteId, caller) ==>
              var accepted := Accepted(old(db.users), old(db.notes), noteId, caller, userIds);
              && (r.Unserializable? <==> accepted != [])
              && (r.Done? <==> accepted == [])
              && r.body.failed == Refused(old(db.users), old(db.notes), noteId, caller, userIds)
              && Describes(r.body.shares, ToOid(noteId), accepted, permission)
              && Granted(db.shares, noteId, accepted, permission)
              && (r.body.success <==> accepted != [])
              && OnlyGrantsTo(old(db.shares), db.shares, ToOid(noteId), Targets(accepted))
    ensures db.users == old(db.users) && db.notes == old(db.notes) && db.tags == old(db.tags)
    ensures db.collections == old(db.collections) && db.links == old(db.links)
    ensures old(db.Consistent()) ==> db.Consistent()
  {
    var note := NoteCrud.GetNoteById(db.notes, noteId, Some(caller));
    if note.None? {
      return NotFound(NoteMissing);
    }
    var successShares, failedUsers := ShareWithEach(db, noteId, userIds, permission, caller, ids, now);
    var response := ShareResponse(|successShares| > 0, successShares, failedUsers);
    r := if successShares == [] then Done(response) else Unserializable(response);
  }

  /** share_note's loop over the requested user ids. */
  method ShareWithEach(db: Store, noteId: string, userIds: seq<string>, permission: Permission, caller: Oid,
                       ids: seq<Oid>, now: Time) returns (successShares: seq<Share>, failedUsers: seq<string>)
    requires ValidId(noteId)
    requires |ids| == |userIds|
    requires forall i, j :: 0 <= i < j < |ids| ==> ids[i] != ids[j]
    requires forall i :: 0 <= i < |ids| ==> ids[i] !in db.shares
    modifies db
    ensures var accepted := Accepted(old(db.users), old(db.notes), noteId, caller, userIds);
            && failedUsers == Refused(old(db.users), old(db.notes), noteId, caller, userIds)
            && Describes(successShares, ToOid(noteId), accepted, permission)
            && Granted(db.shares, noteId, accepted, permission)
            && OnlyGrantsTo(old(db.shares), db.shares, ToOid(noteId), Targets(accepted))
    ensures db.users == old(db.users) && db.notes == old(db.notes) && db.tags == old(db.tags)
    ensures db.collections == old(db.collections) && db.links == old(db.links)
    ensures old(db.Consistent()) ==> db.Consistent()
  {
    ghost var users, notes := db.users, db.notes;
    ghost var accepted: seq<string> := [];
    successShares := [];
    failedUsers := [];
    var i := 0;
    while i < |userIds|
      invariant 0 <= i <= |userIds|
      invariant accepted == Accepted(users, notes, noteId, caller, userIds[..i])
      invariant failedUsers == Refused(users, notes, noteId, caller, userIds[..i])
      invariant Describes(successShares, ToOid(noteId), accepted, permission)
      invariant Granted(db.shares, noteId, accepted, permission)
      invariant OnlyGrantsTo(old(db.shares), db.shares, ToOid(noteId), Targets(accepted))
      invariant forall k :: i <= k < |ids| ==> ids[k] !in db.shares
      invariant db.users == users && db.notes == notes && db.tags == old(db.tags)
      invariant db.collections == old(db.collections) && db.links == old(db.links)
      invariant old(db.Consistent()) ==> db.Consistent()
    {
      AcceptedNext(users, notes, noteId, caller, userIds, i);
      successShares, failedUsers, accepted :=
        ShareNext(db, noteId, userIds[i], permission, caller, ids[i], now, old(db.shares), accepted, successShares, failedUsers);
      i := i + 1;
    }
    assert userIds[..i] == userIds;
  }

  /** One pass of share_note's loop, with what it does to the batch so far: the
      user id joins the accepted ids or the failed ones, and the batch's grants
      and the confinement of its writes carry over. */
  method ShareNext(db: Store, noteId: string, userId: string, permission: Permission, caller: Oid, id: Oid, now: Time,
                   ghost before: map<Oid, Share>, ghost accepted: seq<string>,
                   successShares: seq<Share>, failedUsers: seq<string>)
    returns (successShares': seq<Share>, failedUsers': seq<string>, ghost accepted': seq<string>)
    requires ValidId(noteId) && id !in db.shares
    requires Describes(successShares, ToOid(noteId), accepted, permission)
    requires Granted(db.shares, noteId, accepted, permission)
    requires OnlyGrantsTo(before, db.shares, ToOid(noteId), Targets(accepted))
    modifies db
    ensures var ok := Accepts(old(db.users), old(db.notes), noteId, caller, userId);
            && accepted' == accepted + (if ok then [userId] else [])
            && failedUsers' == failedUsers + (if ok then [] else [userId])
    ensures Describes(successShares', ToOid(noteId), accepted', permission)
    ensures Granted(db.shares, noteId, accepted', permission)
    ensures OnlyGrantsTo(before, db.shares, ToOid(noteId), Targets(accepted'))
    ensures forall x :: x in db.shares ==> x in old(db.shares) || x == id
    ensures db.users == old(db.users) && db.notes == old(db.notes) && db.tags == old(db.tags)
    ensures db.collections == old(db.collections) && db.links == old(db.links)
    ensures old(db.Consistent()) ==> db.Consistent()
  {
    ghost var shares0 := db.shares;
    var share := ShareWithOne(db, noteId, userId, permission, caller, id, now);
    if share.None? {
      successShares', failedUsers', accepted' := successShares, failedUsers + [userId], accepted;
    } else {
      GrantStep(before, shares0, db.shares, noteId, accepted, userId, permission, id, now);
      DescribesStep(successShares, ToOid(noteId), accepted, permission, share.value, userId);
      successShares', failedUsers', accepted' := successShares + [share.value], failedUsers, accepted + [userId];
    }
  }

  // ---------------------------------------------------------------------------
  // get_note_shares, update_share_by_id, remove_share

  /** get_note_shares: 404 unless the caller owns the note, else the note's first
      100 grants in natural order; a non-empty list fails the response schema (a
      500). */
  function GetNoteShares(db: Store, noteId: string, caller: Oid): (r: Reply<seq<Share>>)
    reads db
    ensures r.NotFound? <==> !NoteCrud.OwnsNote(db.notes, noteId, caller)
    ensures !r.BadRequest?
    ensures NoteCrud.OwnsNote(db.notes, noteId, caller) ==>
              var grants := GrantsOfNote(db.shares, ToOid(noteId));
              && (r.Done? <==> grants == {})
              && (r.Unserializable? <==> grants != {})
              && |r.body| == (if |grants| <= 100 then |grants| else 100)
              && ListsWindow(r.body, db.shares, Window(grants, Natural, 0, 100))
  {
    if NoteCrud.GetNoteById(db.notes, noteId, Some(caller)).None? then NotFound(NoteMissing)
    else
      var listed := GetSharesForNote(db.shares, noteId);
      if listed == [] then Done(listed) else Unserializable(listed)
  }

  /** The grant check compares the grant's note id with the path's note id as
      text: for a lower-case path id that is the same as comparing the notes,
      and a path id with an upper-case digit never matches. */
  lemma GrantOfOtherNote(noteId: string, s: Share)
    requires ValidId(noteId)
    ensures IsCanonical(noteId) ==> (s.note != noteId <==> s.note != ToOid(noteId))
    ensures !IsCanonical(noteId) ==> s.note != noteId
  {
  }

  /** update_share_by_id: 404 unless the caller owns the note, 404 when the grant
      is missing, 400 when the grant's note id differs from the path's as text;
      only then the permission is replaced, after which the raw grant fails the
      response schema (a 500). */
  method UpdateShareById(db: Store, noteId: string, shareId: string, permission: Option<Permission>,
                         caller: Oid, now: Time) returns (r: Reply<Share>)
    modifies db
    ensures !NoteCrud.OwnsNote(old(db.notes), noteId, caller) ==> r == NotFound(NoteMissing)
    ensures NoteCrud.OwnsNote(old(db.notes), noteId, caller) && GetShareById(old(db.shares), shareId).None? ==>
              r == NotFound(GrantMissing)
    ensures r == BadRequest <==>
              && NoteCrud.OwnsNote(old(db.notes), noteId, caller)
              && GetShareById(old(db.shares), shareId).Some?
              && GetShareById(old(db.shares), shareId).value.note != noteId
    ensures r.Unserializable? <==>
              && NoteCrud.OwnsNote(old(db.notes), noteId, caller)
              && GetShareById(old(db.shares), shareId).Some?
              && GetShareById(old(db.shares), shareId).value.note == noteId
    ensures !r.Done?
    ensures !r.Unserializable? ==> unchanged(db)
    ensures r.Unserializable? ==>
              var g := ToOid(shareId);
              && g in old(db.shares) && old(db.shares)[g].note == ToOid(noteId)
              && db.shares == old(db.shares)[g := Repermit(old(db.shares)[g], permission, now)]
              && r.body == db.shares[g]
    ensures db.users == old(db.users) && db.notes == old(db.notes) && db.tags == old(db.tags)
    ensures db.collections == old(db.collections) && db.links == old(db.links)
    ensures old(db.Consistent()) ==> db.Consistent()
  {
    var note := NoteCrud.GetNoteById(db.notes, noteId, Some(caller));
    if note.None? {
      return NotFound(NoteMissing);
    }
    var share := GetShareById(db.shares, shareId);
    if share.None? {
      return NotFound(GrantMissing);
    }
    if share.value.note != noteId {
      return BadRequest;
    }
    var updated := UpdateSharePermission(db, shareId, permission, now);
    r := Unserializable(updated.value);
  }

  /** remove_share: 404 unless the caller owns the note, 404 when the user holds
      no grant on it; otherwise the grant is deleted and, in a consistent store,
      the user no longer holds any grant on the note. */
  method RemoveShare(db: Store, noteId: string, userId: string, caller: Oid) returns (r: Reply<()>)
    modifies db
    ensures !NoteCrud.OwnsNote(old(db.notes), noteId, caller) ==> r == NotFound(NoteMissing)
    ensures NoteCrud.OwnsNote(old(db.notes), noteId, caller) ==>
              (r == NotFound(GrantMissing) <==> GetShare(old(db.shares), noteId, userId).None?)
    ensures r.Done? <==> NoteCrud.OwnsNote(old(db.notes), noteId, caller) && GetShare(old(db.shares), noteId, userId).Some?
    ensures !r.Done? ==> unchanged(db)
    ensures r.Done? ==>
              && db.shares == old(db.shares) - {FirstGrant(old(db.shares), ToOid(noteId), ToOid(userId))}
              && (old(db.Consistent()) ==> GetShare(db.shares, noteId, userId).None?)
    ensures !r.BadRequest? && !r.Unserializable?
    ensures db.users == old(db.users) && db.notes == old(db.notes) && db.tags == old(db.tags)
    ensures db.collections == old(db.collections) && db.links == old(db.links)
    ensures old(db.Consistent()) ==> db.Consistent()
  {
    var note := NoteCrud.GetNoteById(db.notes, noteId, Some(caller));
    if note.None? {
      return NotFound(NoteMissing);
    }
    ghost var shares0 := db.shares;
    ghost var wasConsistent := db.Consistent();
    var ok := DeleteShare(db, noteId, userId);
    if !ok {
      return NotFound(GrantMissing);
    }
    if wasConsistent {
      DeleteShareRevokes(shares0, ToOid(noteId), ToOid(userId));
    }
    r := Done(());
  }
}
