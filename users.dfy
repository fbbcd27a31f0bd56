/**
 * The account administration handlers of routes/users.js. Every handler answers 403 to a
 * caller whose role is not `Admin`. The handlers that change `admin_users` keep the table's
 * invariants: usernames stay unique and at least one Admin account remains.
 */
module Users {
  import opened Wrappers
  import opened Text
  import opened Table
  import opened Ordering
  import opened Schema

  datatype UserError =
    | AccessDenied
    | CredentialsRequired
    | InvalidRole
    | UsernameTaken
    | UserNotFound
    | NoValidFields
    | LastAdminDemotion
    | LastAdminDeletion
    | OwnAccount
  {
    /** The HTTP status of the error response. */
    function Status(): nat {
      match this
      case AccessDenied => 403
      case UserNotFound => 404
      case _ => 400
    }
  }

  /** The JSON body of a create or update request. */
  datatype UserBody = UserBody(username: Option<string>, password: Option<string>, userRole: Option<string>)

  /** An account as the listing shows it: everything but the password hash. */
  datatype UserView = UserView(id: nat, username: string, role: Role, createdAt: int)

  /** The body of a 201 answer to a create request. */
  datatype NewUser = NewUser(id: nat, username: string, role: Role)

  predicate IsAdminCaller(caller: Identity) {
    caller.role == "Admin"
  }

  function View(r: Row<Account>): UserView {
    UserView(r.id, r.value.username, r.value.role, r.value.createdAt)
  }

  function Views(t: seq<Row<Account>>): (r: seq<UserView>)
    ensures |r| == |t| && forall k :: 0 <= k < |t| ==> r[k] == View(t[k])
  {
    if t == [] then [] else [View(t[0])] + Views(t[1..])
  }

  /** `ORDER BY created_at DESC`. */
  predicate NewestFirst(a: UserView, b: UserView) {
    a.createdAt >= b.createdAt
  }

  /** Some account other than `id` already uses `name`. */
  predicate UsernameHeld(t: seq<Row<Account>>, name: string, id: int) {
    exists row :: row in t && row.id != id && row.value.username == name
  }

  /** `WHERE username = ? AND id != ?`; the create handler passes an id no row has. */
  function HolderOf(name: string, id: int): Row<Account> -> bool {
    (row: Row<Account>) => row.value.username == name && row.id != id
  }

  /** One `SET column = ?` entry of the update statement the PUT handler assembles. */
  datatype Change = SetUsername(username: string) | SetPasswordHash(hash: PasswordHash) | SetRole(role: Role)

  function ApplyChange(a: Account, c: Change): Account {
    match c
    case SetUsername(u) => a.(username := u)
    case SetPasswordHash(h) => a.(passwordHash := h)
    case SetRole(r) => a.(role := r)
  }

  /** The row after `UPDATE admin_users SET <changes, in order>`. */
  function ApplyChanges(a: Account, changes: seq<Change>): Account {
    if changes == [] then a
    else ApplyChange(ApplyChanges(a, changes[..|changes| - 1]), changes[|changes| - 1])
  }

  /** The body changes the account in some way: a non-empty username or password, or a valid role. */
  predicate ChangesSomething(body: UserBody) {
    Present(body.username) || Present(body.password) || ParseRole(body.userRole).Some?
  }

  /** The account as an update request leaves it: each field the body carries replaces the stored one. */
  function Patched(a: Account, body: UserBody): Account {
    Account(
      if Present(body.username) then body.username.value else a.username,
      if Present(body.password) then Bcrypt(body.password.value) else a.passwordHash,
      if ParseRole(body.userRole).Some? then ParseRole(body.userRole).value else a.role,
      a.createdAt)
  }

  /** The body demotes an Admin account to Editor. */
  predicate Demotes(a: Account, body: UserBody) {
    body.userRole == Some("Editor") && a.role == Admin
  }

  /** `GET /api/v1/users`: every account, newest first, without password hashes. */
  method ListUsers(db: Database, caller: Identity) returns (r: Reply<seq<UserView>, UserError>)
    ensures !IsAdminCaller(caller) ==> r == Err(AccessDenied)
    ensures IsAdminCaller(caller) ==> r.Ok? && r.status == 200
    ensures r.Ok? ==> multiset(r.body) == multiset(Views(db.users)) && SortedBy(r.body, NewestFirst)
  {
    if !IsAdminCaller(caller) {
      return Err(AccessDenied);
    }
    assert IsTotalPreorder(NewestFirst);
    SortBySorted(Views(db.users), NewestFirst);
    return Ok(200, SortBy(Views(db.users), NewestFirst));
  }

  /** `GET /api/v1/users/:id`. */
  method GetUser(db: Database, caller: Identity, id: int) returns (r: Reply<UserView, UserError>)
    ensures !IsAdminCaller(caller) ==> r == Err(AccessDenied)
    ensures r == Err(UserNotFound) <==> IsAdminCaller(caller) && forall row :: row in db.users ==> row.id != id
    ensures r.Ok? <==> IsAdminCaller(caller) && Find(db.users, id).Some?
    ensures r.Ok? ==> r.status == 200 && r.body.id == id && exists row :: row in db.users && View(row) == r.body
  {
    if !IsAdminCaller(caller) {
      return Err(AccessDenied);
    }
    match Find(db.users, id)
    case None =>
      return Err(UserNotFound);
    case Some(a) =>
      assert Row(id as nat, a) in db.users;
      return Ok(200, View(Row(id as nat, a)));
  }

  /** `POST /api/v1/users`: a new account under the next id, with the password hashed. */
  method CreateUser(db: Database, caller: Identity, body: UserBody, now: int) returns (r: Reply<NewUser, UserError>)
    requires db.Valid()
    modifies db`users, db`nextUserId
    ensures db.Valid()
    ensures r.Err? ==> db.users == old(db.users) && db.nextUserId == old(db.nextUserId)
    ensures !IsAdminCaller(caller) ==> r == Err(AccessDenied)
    ensures IsAdminCaller(caller) && !(Present(body.username) && Present(body.password)) ==> r == Err(CredentialsRequired)
    ensures r == Err(InvalidRole) <==>
      IsAdminCaller(caller) && Present(body.username) && Present(body.password) && ParseRole(body.userRole).None?
    ensures r == Err(UsernameTaken) <==>
      IsAdminCaller(caller) && Present(body.username) && Present(body.password) && ParseRole(body.userRole).Some?
      && UsernameHeld(old(db.users), body.username.value, -1)
    ensures r.Ok? <==>
      IsAdminCaller(caller) && Present(body.username) && Present(body.password) && ParseRole(body.userRole).Some?
      && !UsernameHeld(old(db.users), body.username.value, -1)
    ensures r.Ok? ==>
      var a := Account(body.username.value, Bcrypt(body.password.value), ParseRole(body.userRole).value, now);
      && r.status == 201 && r.body == NewUser(old(db.nextUserId), a.username, a.role)
      && db.users == old(db.users) + [Row(old(db.nextUserId), a)]
      && db.nextUserId == old(db.nextUserId) + 1
  {
    if !IsAdminCaller(caller) {
      return Err(AccessDenied);
    }
    if !Present(body.username) || !Present(body.password) {
      return Err(CredentialsRequired);
    }
    var role := ParseRole(body.userRole);
    if role.None? {
      return Err(InvalidRole);
    }
    var username := body.username.value;
    var existing := Where(db.users, HolderOf(username, -1));
    HoldersFound(db.users, username, -1);
    if |existing| > 0 {
      return Err(UsernameTaken);
    }
    var a := Account(username, Bcrypt(body.password.value), role.value, now);
    var id := db.nextUserId;
    InsertKeepsKeys(db.users, id, a);
    InsertKeepsUniqueBy(db.users, Row(id, a), Username);
    CountAppend(db.users, Row(id, a), IsAdminRow);
    assert UsersValid(db.users + [Row(id, a)], id + 1);
    db.AppendUser(a);
    return Ok(201, NewUser(id, username, a.role));
  }

  /** `PUT /api/v1/users/:id`: changes the fields the body carries, refusing to demote the last Admin. */
  method UpdateUser(db: Database, caller: Identity, id: int, body: UserBody) returns (r: Reply<(), UserError>)
    requires db.Valid()
    modifies db`users
    ensures db.Valid()
    ensures r.Err? ==> db.users == old(db.users)
    ensures !IsAdminCaller(caller) ==> r == Err(AccessDenied)
    ensures r == Err(UserNotFound) <==> IsAdminCaller(caller) && Find(old(db.users), id).None?
    ensures r == Err(UsernameTaken) <==>
      IsAdminCaller(caller) && Find(old(db.users), id).Some?
      && Present(body.username) && UsernameHeld(old(db.users), body.username.value, id)
    ensures r == Err(LastAdminDemotion) <==>
      IsAdminCaller(caller) && Find(old(db.users), id).Some?
      && !(Present(body.username) && UsernameHeld(old(db.users), body.username.value, id))
      && Demotes(Find(old(db.users), id).value, body) && AdminCount(old(db.users)) == 1
    ensures r == Err(NoValidFields) <==>
      IsAdminCaller(caller) && Find(old(db.users), id).Some? && !ChangesSomething(body)
    ensures r.Ok? <==>
      && IsAdminCaller(caller) && Find(old(db.users), id).Some?
      && !(Present(body.username) && UsernameHeld(old(db.users), body.username.value, id))
      && !(Demotes(Find(old(db.users), id).value, body) && AdminCount(old(db.users)) == 1)
      && ChangesSomething(body)
    ensures r.Ok? ==>
      && r.status == 200 && Find(old(db.users), id).Some?
      && db.users == Update(old(db.users), id, Patched(Find(old(db.users), id).value, body))
  {
    if !IsAdminCaller(caller) {
      return Err(AccessDenied);
    }
    var found := Find(db.users, id);
    if found.None? {
      return Err(UserNotFound);
    }
    var current := found.value;
    if Present(body.username) {
      var duplicates := Where(db.users, HolderOf(body.username.value, id));
      HoldersFound(db.users, body.username.value, id);
      if |duplicates| > 0 {
        return Err(UsernameTaken);
      }
    }
    var role := ParseRole(body.userRole);
    if role.Some? && role.value == Editor && current.role == Admin {
      var admins := Where(db.users, IsAdminRow);
      if |admins| == 1 {
        return Err(LastAdminDemotion);
      }
    }
    var changes := AssembleChanges(current, body);
    if |changes| == 0 {
      return Err(NoValidFields);
    }
    StoreUpdate(db, id, current, ApplyChanges(current, changes));
    return Ok(200, ());
  }

  /**
   * The `SET` list the handler assembles: the username, then the password hash, then the role,
   * each when the body carries it.
   */
  method AssembleChanges(current: Account, body: UserBody) returns (changes: seq<Change>)
    ensures changes == [] <==> !ChangesSomething(body)
    ensures ApplyChanges(current, changes) == Patched(current, body)
  {
    changes := [];
    if Present(body.username) {
      changes := changes + [SetUsername(body.username.value)];
    }
    if Present(body.password) {
      changes := changes + [SetPasswordHash(Bcrypt(body.password.value))];
    }
    var role := ParseRole(body.userRole);
    if role.Some? {
      changes := changes + [SetRole(role.value)];
    }
    ChangesInOrder(current, body, changes);
  }

  /** The update statement's `SET` list, as the handler assembles it, gives the patched account. */
  lemma ChangesInOrder(a: Account, body: UserBody, changes: seq<Change>)
    requires changes == (if Present(body.username) then [SetUsername(body.username.value)] else [])
      + (if Present(body.password) then [SetPasswordHash(Bcrypt(body.password.value))] else [])
      + (if ParseRole(body.userRole).Some? then [SetRole(ParseRole(body.userRole).value)] else [])
    ensures ApplyChanges(a, changes) == Patched(a, body)
  {
    var u := if Present(body.username) then [SetUsername(body.username.value)] else [];
    var p := if Present(body.password) then [SetPasswordHash(Bcrypt(body.password.value))] else [];
    var q := if ParseRole(body.userRole).Some? then [SetRole(ParseRole(body.userRole).value)] else [];
    assert [] + u == u;
    ApplyAppend(a, [], u);
    ApplyAppend(a, u, p);
    ApplyAppend(a, u + p, q);
  }

  /** Appending at most one entry to the `SET` list applies it last. */
  lemma ApplyAppend(a: Account, changes: seq<Change>, more: seq<Change>)
    requires |more| <= 1
    ensures ApplyChanges(a, changes + more)
      == if more == [] then ApplyChanges(a, changes) else ApplyChange(ApplyChanges(a, changes), more[0])
  {
    if more == [] {
      assert changes + more == changes;
    } else {
      assert (changes + more)[..|changes|] == changes;
    }
  }

  /** The duplicate-username query finds a row exactly when another account holds the name. */
  lemma HoldersFound(t: seq<Row<Account>>, name: string, id: int)
    ensures |Where(t, HolderOf(name, id))| > 0 <==> UsernameHeld(t, name, id)
  {
    CountZero(t, HolderOf(name, id));
  }

  /** Issues the assembled `UPDATE`; the checks before it keep usernames unique and an Admin in place. */
  method StoreUpdate(db: Database, id: int, current: Account, patched: Account)
    requires db.Valid() && Find(db.users, id) == Some(current)
    requires patched.username == current.username || !UsernameHeld(db.users, patched.username, id)
    requires patched.role == Admin || current.role == Editor || AdminCount(db.users) != 1
    modifies db`users
    ensures db.Valid()
    ensures db.users == Update(old(db.users), id, patched)
  {
    UpdateKeepsUsersValid(db.users, db.nextUserId, id, current, patched);
    db.SetUsers(Update(db.users, id, patched));
  }

  lemma UpdateKeepsUsersValid(t: seq<Row<Account>>, next: nat, id: int, current: Account, patched: Account)
    requires UsersValid(t, next) && Find(t, id) == Some(current)
    requires patched.username == current.username || !UsernameHeld(t, patched.username, id)
    requires patched.role == Admin || current.role == Editor || AdminCount(t) != 1
    ensures UsersValid(Update(t, id, patched), next)
  {
    var i :| 0 <= i < |t| && t[i] == Row(id as nat, current);
    UpdateKeepsKeys(t, id, patched, next);
    UpdateKeepsAnAdmin(t, i, patched);
    UpdateKeepsUniqueBy(t, i, patched, Username);
  }

  /** `DELETE /api/v1/users/:id`: refuses the caller's own account and the last Admin. */
  method DeleteUser(db: Database, caller: Identity, id: int) returns (r: Reply<(), UserError>)
    requires db.Valid()
    modifies db`users
    ensures db.Valid()
    ensures r.Err? ==> db.users == old(db.users)
    ensures !IsAdminCaller(caller) ==> r == Err(AccessDenied)
    ensures r == Err(OwnAccount) <==> IsAdminCaller(caller) && id == caller.id
    ensures r == Err(UserNotFound) <==>
      IsAdminCaller(caller) && id != caller.id && Find(old(db.users), id).None?
    ensures r == Err(LastAdminDeletion) <==>
      && IsAdminCaller(caller) && id != caller.id && Find(old(db.users), id).Some?
      && Find(old(db.users), id).value.role == Admin && AdminCount(old(db.users)) == 1
    ensures r.Ok? <==>
      && IsAdminCaller(caller) && id != caller.id && Find(old(db.users), id).Some?
      && !(Find(old(db.users), id).value.role == Admin && AdminCount(old(db.users)) == 1)
    ensures r.Ok? ==> r.status == 200 && db.users == Delete(old(db.users), id)
  {
    if !IsAdminCaller(caller) {
      return Err(AccessDenied);
    }
    if id == caller.id {
      return Err(OwnAccount);
    }
    var found := Find(db.users, id);
    if found.None? {
      return Err(UserNotFound);
    }
    if found.value.role == Admin {
      var admins := Where(db.users, IsAdminRow);
      if |admins| == 1 {
        return Err(LastAdminDeletion);
      }
    }
    var i :| 0 <= i < |db.users| && db.users[i] == Row(id as nat, found.value);
    DeleteKeepsUnique(db.users, id, Username);
    DeleteKeepsAnAdmin(db.users, i);
    var t := Delete(db.users, id);
    DeleteKeepsBelow(db.users, id, db.nextUserId);
    assert UsersValid(t, db.nextUserId);
    db.SetUsers(t);
    return Ok(200, ());
  }

  /** An update keeps an Admin account unless it demotes the only one. */
  lemma UpdateKeepsAnAdmin(t: seq<Row<Account>>, i: nat, v: Account)
    requires KeysUnique(t) && i < |t| && AdminCount(t) > 0
    requires v.role == Admin || t[i].value.role == Editor || AdminCount(t) != 1
    ensures AdminCount(Update(t, t[i].id, v)) > 0
  {
    UpdateAt(t, i, v);
    CountReplace(t, i, Row(t[i].id, v), IsAdminRow);
  }

  /** The guard is needed: demoting the only Admin leaves none. */
  lemma DemotingSoleAdminLeavesNone(t: seq<Row<Account>>, i: nat, v: Account)
    requires KeysUnique(t) && i < |t| && t[i].value.role == Admin && v.role == Editor && AdminCount(t) == 1
    ensures AdminCount(Update(t, t[i].id, v)) == 0
  {
    UpdateAt(t, i, v);
    CountReplace(t, i, Row(t[i].id, v), IsAdminRow);
  }

  /** A deletion keeps an Admin account unless it removes the only one. */
  lemma DeleteKeepsAnAdmin(t: seq<Row<Account>>, i: nat)
    requires KeysUnique(t) && i < |t| && AdminCount(t) > 0
    requires t[i].value.role == Editor || AdminCount(t) != 1
    ensures AdminCount(Delete(t, t[i].id)) > 0
  {
    DeleteAt(t, i);
    CountRemove(t, i, IsAdminRow);
  }

  /** The guard is needed: deleting the only Admin leaves none. */
  lemma DeletingSoleAdminLeavesNone(t: seq<Row<Account>>, i: nat)
    requires KeysUnique(t) && i < |t| && t[i].value.role == Admin && AdminCount(t) == 1
    ensures AdminCount(Delete(t, t[i].id)) == 0
  {
    DeleteAt(t, i);
    CountRemove(t, i, IsAdminRow);
  }
}
