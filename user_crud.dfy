/** app/crud/user.py: user accounts, unique by e-mail and by user name, with the
 *  password stored only as its hash. Hashing and hash verification belong to a
 *  password library and are parameters here: `hash` and `verify`.
 */
module UserCrud {
  import opened Ids
  import opened Maybe
  import opened Documents
  import opened Order
  import opened Consistency
  import opened Database

  // ---------------------------------------------------------------------------
  // Reads

  function UsersWithEmail(users: map<Oid, User>, email: Option<string>): set<Oid> {
    set k | k in users && users[k].email == email
  }

  function UsersWithUsername(users: map<Oid, User>, username: Option<string>): set<Oid> {
    set k | k in users && users[k].username == username
  }

  /** get_user_by_email: the first user whose e-mail field equals `email` (null matching null). */
  function GetUserByEmail(users: map<Oid, User>, email: Option<string>): (r: Option<User>)
    ensures r.None? <==> UsersWithEmail(users, email) == {}
    ensures r.Some? ==> r.value in users.Values && r.value.email == email
  {
    var found := UsersWithEmail(users, email);
    if found == {} then None else Some(users[FirstOf(found)])
  }

  /** get_user_by_username: the first user whose user name equals `username`. */
  function GetUserByUsername(users: map<Oid, User>, username: Option<string>): (r: Option<User>)
    ensures r.None? <==> UsersWithUsername(users, username) == {}
    ensures r.Some? ==> r.value in users.Values && r.value.username == username
  {
    var found := UsersWithUsername(users, username);
    if found == {} then None else Some(users[FirstOf(found)])
  }

  /** get_user_by_id. */
  function GetUserById(users: map<Oid, User>, userId: string): (r: Option<User>)
    ensures r.Some? <==> ValidId(userId) && ToOid(userId) in users
    ensures r.Some? ==> r.value == users[ToOid(userId)]
  {
    if ValidId(userId) && ToOid(userId) in users then Some(users[ToOid(userId)]) else None
  }

  /** get_users: one page of all users in natural order, since no sort is given. */
  function GetUsers(users: map<Oid, User>, skip: nat, limit: nat): (r: seq<User>)
    ensures |r| == PageSize(|users|, skip, limit)
    ensures ListsWindow(r, users, Window(users.Keys, Natural, skip, limit))
    ensures UsersKeyed(users) ==> forall i, j :: 0 <= i < j < |r| ==> SeqLess(Codes(r[i].id), Codes(r[j].id))
  {
    NaturalTagged();
    var ids := PageOf(users.Keys, Natural, skip, limit);
    assert forall i :: 0 <= i < |ids| ==> ids[i] in Window(users.Keys, Natural, skip, limit);
    LookupStored(users, ids);
    LookupListsWindow(users, ids, Window(users.Keys, Natural, skip, limit));
    Lookup(users, ids)
  }

  /** With unique e-mails, the user found by e-mail is the one user with it. */
  lemma GetUserByEmailFindsTheUser(users: map<Oid, User>, k: Oid)
    requires EmailsUnique(users) && k in users
    ensures GetUserByEmail(users, users[k].email) == Some(users[k])
  {
    var found := UsersWithEmail(users, users[k].email);
    assert k in found;
    assert FirstOf(found) == k;
  }

  /** authenticate_user: the user whose e-mail is `login`, or failing that the user
      whose user name is `login`, provided the password matches that user's hash.
      A user found by e-mail is the only candidate: a wrong password does not
      fall back to the user name. */
  function AuthenticateUser(users: map<Oid, User>, login: string, password: string,
                            verify: (string, string) -> bool): (r: Option<User>)
    ensures r.Some? ==> r.value in users.Values && verify(password, r.value.hashedPassword)
    ensures r.Some? ==> r.value.email == Some(login) || r.value.username == Some(login)
    ensures UsersWithEmail(users, Some(login)) != {} ==>
              && (r.Some? <==> verify(password, GetUserByEmail(users, Some(login)).value.hashedPassword))
              && (r.Some? ==> r == GetUserByEmail(users, Some(login)))
    ensures UsersWithEmail(users, Some(login)) == {} && UsersWithUsername(users, Some(login)) != {} ==>
              && (r.Some? <==> verify(password, GetUserByUsername(users, Some(login)).value.hashedPassword))
              && (r.Some? ==> r == GetUserByUsername(users, Some(login)))
    ensures UsersWithEmail(users, Some(login)) == {} && UsersWithUsername(users, Some(login)) == {} ==> r.None?
  {
    var candidate :=
      match GetUserByEmail(users, Some(login))
      case Some(u) => Some(u)
      case None => GetUserByUsername(users, Some(login));
    if candidate.None? then None
    else if !verify(password, candidate.value.hashedPassword) then None
    else candidate
  }

  /** Under unique e-mails and the right password, logging in with a user's e-mail
      yields that user. */
  lemma LoginByEmailFindsTheUser(users: map<Oid, User>, k: Oid, password: string, verify: (string, string) -> bool)
    requires EmailsUnique(users) && k in users && users[k].email.Some?
    requires verify(password, users[k].hashedPassword)
    ensures AuthenticateUser(users, users[k].email.value, password, verify) == Some(users[k])
  {
    GetUserByEmailFindsTheUser(users, k);
  }

  /** Under unique user names, when no user has the login as e-mail, logging in
      with a user's name and the right password yields that user. */
  lemma LoginByUsernameFindsTheUser(users: map<Oid, User>, k: Oid, password: string, verify: (string, string) -> bool)
    requires UsernamesUnique(users) && k in users && users[k].username.Some?
    requires UsersWithEmail(users, users[k].username) == {}
    requires verify(password, users[k].hashedPassword)
    ensures AuthenticateUser(users, users[k].username.value, password, verify) == Some(users[k])
  {
    var found := UsersWithUsername(users, users[k].username);
    assert k in found;
    assert FirstOf(found) == k;
  }

  // ---------------------------------------------------------------------------
  // Writes

  /** Why create_user refuses, in the order it checks; None when it goes ahead. */
  function CreateUserRefusal(users: map<Oid, User>, request: UserCreate): (r: Option<Reason>)
    ensures r.None? <==> UsersWithEmail(users, Some(request.email)) == {} && UsersWithUsername(users, Some(request.username)) == {}
    ensures r.Some? ==> r.value == DuplicateEmail || r.value == DuplicateUsername
    ensures r == Some(DuplicateEmail) <==> UsersWithEmail(users, Some(request.email)) != {}
  {
    if GetUserByEmail(users, Some(request.email)).Some? then Some(DuplicateEmail)
    else if GetUserByUsername(users, Some(request.username)).Some? then Some(DuplicateUsername)
    else None
  }

  /** The account create_user inserts: active, with the user role, holding the
      hash of the password. The request's is_active is not consulted. */
  function NewUser(request: UserCreate, id: Oid, now: Time, hash: string -> string): (u: User)
    ensures u.id == id && u.email == Some(request.email) && u.username == Some(request.username)
    ensures u.hashedPassword == hash(request.password) && u.fullName == request.fullName
    ensures u.active == Some(true) && u.role == UserRole && u.createdAt == now && u.updatedAt == now
  {
    User(id, Some(request.email), Some(request.username), hash(request.password), request.fullName,
         Some(true), UserRole, now, now)
  }

  /** Inserting a user whose e-mail and user name are unused keeps both unique. */
  lemma NewUserKeepsConsistency(users: map<Oid, User>, notes: map<Oid, Note>, tags: map<Oid, Tag>,
                                cs: map<Oid, Collection>, links: map<Oid, Link>, shares: map<Oid, Share>, u: User)
    requires StoreConsistent(users, notes, tags, cs, links, shares) && u.id !in users
    requires UsersWithEmail(users, u.email) == {} && UsersWithUsername(users, u.username) == {}
    ensures StoreConsistent(users[u.id := u], notes, tags, cs, links, shares)
  {
    var users' := users[u.id := u];
    forall a, b | a in users' && b in users' && users'[a].email == users'[b].email ensures a == b {
      assert a !in UsersWithEmail(users, u.email) && b !in UsersWithEmail(users, u.email);
    }
    forall a, b | a in users' && b in users' && users'[a].username == users'[b].username ensures a == b {
      assert a !in UsersWithUsername(users, u.username) && b !in UsersWithUsername(users, u.username);
    }
  }

  method CreateUser(db: Store, request: UserCreate, id: Oid, now: Time, hash: string -> string) returns (r: Result<User>)
    requires id !in db.users
    modifies db
    ensures r.Err? <==> CreateUserRefusal(old(db.users), request).Some?
    ensures r.Err? ==> r.error == ValueError(CreateUserRefusal(old(db.users), request).value) && unchanged(db)
    ensures r.Ok? ==> r.value == NewUser(request, id, now, hash) && db.users == old(db.users)[id := r.value]
    ensures r.Ok? ==> GetUserByEmail(db.users, Some(request.email)) == Some(r.value)
    ensures db.notes == old(db.notes) && db.tags == old(db.tags) && db.collections == old(db.collections)
    ensures db.links == old(db.links) && db.shares == old(db.shares)
    ensures old(db.Consistent()) ==> db.Consistent()
  {
    var existing := GetUserByEmail(db.users, Some(request.email));
    if existing.Some? {
      return Err(ValueError(DuplicateEmail));
    }
    var existingName := GetUserByUsername(db.users, Some(request.username));
    if existingName.Some? {
      return Err(ValueError(DuplicateUsername));
    }
    var u := NewUser(request, id, now, hash);
    ghost var wasConsistent, users0 := db.Consistent(), db.users;
    db.users := db.users[id := u];
    assert UsersWithEmail(db.users, Some(request.email)) == {id};
    r := Ok(u);
    if wasConsistent {
      NewUserKeepsConsistency(users0, db.notes, db.tags, db.collections, db.links, db.shares, u);
    }
  }

  /** The update supplies an e-mail other than the user's own that another user has. */
  predicate EmailClash(users: map<Oid, User>, current: User, u: UserUpdate) {
    var e := Requested(u.email);
    e.Some? && e.value != current.email && UsersWithEmail(users, e.value) != {}
  }

  /** The update supplies a user name other than the user's own that another user has. */
  predicate NameClash(users: map<Oid, User>, current: User, u: UserUpdate) {
    var n := Requested(u.username);
    n.Some? && n.value != current.username && UsersWithUsername(users, n.value) != {}
  }

  /** Why update_user refuses, in the order it checks; None when it goes ahead. A
      supplied value equal to the stored one is not checked. A null password
      cannot be hashed. */
  function UpdateUserRefusal(users: map<Oid, User>, current: User, u: UserUpdate): (r: Option<Error>)
    ensures r.Some? && r.value.ValueError? ==> r.value.reason == DuplicateEmail || r.value.reason == DuplicateUsername
    ensures r == Some(ValueError(DuplicateEmail)) <==> EmailClash(users, current, u)
    ensures r == Some(ValueError(DuplicateUsername)) <==> !EmailClash(users, current, u) && NameClash(users, current, u)
    ensures r == Some(TypeError) <==> !EmailClash(users, current, u) && !NameClash(users, current, u) && u.password.SetNull?
    ensures r.None? <==> !EmailClash(users, current, u) && !NameClash(users, current, u) && !u.password.SetNull?
  {
    var e, n := Requested(u.email), Requested(u.username);
    if e.Some? && e.value != current.email && GetUserByEmail(users, e.value).Some? then Some(ValueError(DuplicateEmail))
    else if n.Some? && n.value != current.username && GetUserByUsername(users, n.value).Some? then Some(ValueError(DuplicateUsername))
    else if u.password.SetNull? then Some(TypeError)
    else None
  }

  /** `$set` of the supplied fields, the password as its hash, plus updated_at. */
  function PatchUser(current: User, u: UserUpdate, now: Time, hash: string -> string): (r: User)
    requires !u.password.SetNull?
    ensures r.id == current.id && r.role == current.role && r.createdAt == current.createdAt && r.updatedAt == now
    ensures r.email == Apply(u.email, current.email) && r.username == Apply(u.username, current.username)
    ensures r.hashedPassword == (if u.password.SetTo? then hash(u.password.value) else current.hashedPassword)
  {
    current.(email := Apply(u.email, current.email), username := Apply(u.username, current.username),
             hashedPassword := if u.password.SetTo? then hash(u.password.value) else current.hashedPassword,
             fullName := Apply(u.fullName, current.fullName), active := Apply(u.isActive, current.active),
             updatedAt := now)
  }

  /** An update that passes the checks keeps e-mails and user names unique. */
  lemma UpdateUserKeepsConsistency(users: map<Oid, User>, notes: map<Oid, Note>, tags: map<Oid, Tag>,
                                   cs: map<Oid, Collection>, links: map<Oid, Link>, shares: map<Oid, Share>,
                                   k: Oid, u: UserUpdate, now: Time, hash: string -> string)
    requires StoreConsistent(users, notes, tags, cs, links, shares) && k in users
    requires UpdateUserRefusal(users, users[k], u).None?
    ensures StoreConsistent(users[k := PatchUser(users[k], u, now, hash)], notes, tags, cs, links, shares)
  {
    var p := PatchUser(users[k], u, now, hash);
    var users' := users[k := p];
    assert u.username.Keep? || p.username == users[k].username || UsersWithUsername(users, p.username) == {};
    forall a, b | a in users' && b in users' && users'[a].email == users'[b].email ensures a == b {
      if p.email != users[k].email {
        assert a !in UsersWithEmail(users, p.email) && b !in UsersWithEmail(users, p.email);
      }
    }
    forall a, b | a in users' && b in users' && users'[a].username == users'[b].username ensures a == b {
      if p.username != users[k].username {
        assert a !in UsersWithUsername(users, p.username) && b !in UsersWithUsername(users, p.username);
      }
    }
  }

  method UpdateUser(db: Store, userId: string, update: UserUpdate, now: Time, hash: string -> string)
    returns (r: Result<Option<User>>)
    modifies db
    ensures r == Ok(None) <==> GetUserById(old(db.users), userId).None?
    ensures r.Err? <==> GetUserById(old(db.users), userId).Some? && UpdateUserRefusal(old(db.users), old(db.users)[ToOid(userId)], update).Some?
    ensures r.Err? ==> r.error == UpdateUserRefusal(old(db.users), old(db.users)[ToOid(userId)], update).value
    ensures !(r.Ok? && r.value.Some?) ==> unchanged(db)
    ensures r.Ok? && r.value.Some? ==>
              var k := ToOid(userId);
              && db.users == old(db.users)[k := PatchUser(old(db.users)[k], update, now, hash)]
              && r.value.value == db.users[k]
    ensures db.notes == old(db.notes) && db.tags == old(db.tags) && db.collections == old(db.collections)
    ensures db.links == old(db.links) && db.shares == old(db.shares)
    ensures old(db.Consistent()) ==> db.Consistent()
  {
    if !ValidId(userId) {
      return Ok(None);
    }
    var found := GetUserById(db.users, userId);
    if found.None? {
      return Ok(None);
    }
    var k := ToOid(userId);
    var current := found.value;
    var refusal := UpdateUserRefusal(db.users, current, update);
    if refusal.Some? {
      return Err(refusal.value);
    }
    ghost var wasConsistent, users0 := db.Consistent(), db.users;
    db.users := db.users[k := PatchUser(current, update, now, hash)];
    r := Ok(Some(db.users[k]));
    if wasConsistent {
      UpdateUserKeepsConsistency(users0, db.notes, db.tags, db.collections, db.links, db.shares, k, update, now, hash);
    }
  }

  /** delete_user removes the account only: the user's notes, tags, collections and
      grants stay in the store. */
  method DeleteUser(db: Store, userId: string) returns (ok: bool)
    modifies db
    ensures ok <==> GetUserById(old(db.users), userId).Some?
    ensures ok ==> db.users == old(db.users) - {ToOid(userId)}
    ensures !ok ==> unchanged(db)
    ensures db.notes == old(db.notes) && db.tags == old(db.tags) && db.collections == old(db.collections)
    ensures db.links == old(db.links) && db.shares == old(db.shares)
    ensures old(db.Consistent()) ==> db.Consistent()
  {
    if !ValidId(userId) {
      return false;
    }
    var k := ToOid(userId);
    if k !in db.users {
      return false;
    }
    db.users := db.users - {k};
    ok := true;
  }
}
