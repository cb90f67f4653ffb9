/** The simulated user service: an in-memory user table with login, paged
    queries and create/read/update/delete, a static role-to-permission table, and a
    one-shot `simulatedError` switch that makes the next operation fail. */
module Api {
  import opened Wrappers
  import opened ApiTypes
  import opened Sequences
  import opened UserQuery

  // ------------------------------------------------------------ static tables

  /** The roles `getRoles` lists, in order. */
  const Roles: seq<Role> := [Admin, Manager, Viewer]

  /** The permission names each role grants. */
  function RolePermissions(r: Role): seq<string> {
    match r
    case Admin => ["view_dashboard", "view_users", "add_users", "view_user",
                   "change_password", "edit_users", "delete_users", "give_permissions"]
    case Manager => ["view_dashboard", "view_users", "view_user"]
    case Viewer => ["view_dashboard"]
  }

  function PermissionSet(r: Role): set<string> {
    set p | p in RolePermissions(r)
  }

  /** Each role's permissions are a strict subset of the next role up. */
  lemma PermissionsNested()
    ensures PermissionSet(Viewer) < PermissionSet(Manager) < PermissionSet(Admin)
  {
    assert "view_users" in PermissionSet(Manager);
    assert "add_users" in PermissionSet(Admin);
  }

  // ---------------------------------------------------------------- messages

  const LoginFailed := "Something went wrong"
  const UsersFetchFailed := "Users is not fetched, something went wrong"
  const UserFetchFailed := "User is not fetched, something went wrong"
  const UserCreateFailed := "User is not created, something went wrong"
  // deleteUser reuses the update message
  const UserUpdateFailed := "User is not updated, something went wrong"
  const UserNotFound := "User Not Found"
  const UserNotActive := "User is not active"
  const LoginSucceeded := "User logged successfully"
  const UserCreated := "User Created Successfully"
  const UserUpdated := "User Updated Successfully"
  const UserDeleted := "User Deleted Successfully"
  /** What reading `.id` of the missing last record of an empty table throws. */
  const NoLastRecord := "Cannot read properties of undefined (reading 'id')"

  /** A successful response: its `message` and its payload. */
  datatype Reply<T> = Reply(message: string, value: T)

  /** The payload of a successful login. */
  datatype LoginData = LoginData(user: User, permissions: seq<string>)

  // ------------------------------------------------------------------- login

  predicate CredentialsMatch(u: User, email: string, password: string) {
    u.email == email && u.password == Some(password)
  }

  /** `k` is the record `find` returns for the credentials. */
  predicate IsFirstMatch(users: seq<User>, email: string, password: string, k: int) {
    && 0 <= k < |users|
    && CredentialsMatch(users[k], email, password)
    && forall j :: 0 <= j < k ==> !CredentialsMatch(users[j], email, password)
  }

  /** The credential check of `login`: the first record with this exact email and
      password decides; it must not be inactive. A success carries the record
      without its password and the permissions of its role. */
  function Authenticate(users: seq<User>, email: string, password: string): (r: Result<Reply<LoginData>>)
    ensures r.Success? <==> exists k :: IsFirstMatch(users, email, password, k) && users[k].status != Inactive
    ensures forall k :: IsFirstMatch(users, email, password, k) && users[k].status != Inactive ==>
      r == Success(Reply(LoginSucceeded, LoginData(WithoutPassword(users[k]), RolePermissions(users[k].role))))
    ensures forall k :: IsFirstMatch(users, email, password, k) && users[k].status == Inactive ==>
      r == Failure(UserNotActive)
    ensures (forall k :: 0 <= k < |users| ==> !CredentialsMatch(users[k], email, password)) ==>
      r == Failure(UserNotFound)
    ensures r.Success? ==> r.value.value.user.password.None?
  {
    match IndexWhere(users, (u: User) => CredentialsMatch(u, email, password))
    case None => Failure(UserNotFound)
    case Some(k) =>
      assert IsFirstMatch(users, email, password, k);
      if users[k].status == Inactive then Failure(UserNotActive)
      else Success(Reply(LoginSucceeded, LoginData(WithoutPassword(users[k]), RolePermissions(users[k].role))))
  }

  // ----------------------------------------------------------- lookup by id

  /** `findIndex` on the id. */
  function FindById(users: seq<User>, id: int): (r: Option<nat>)
    ensures r.Some? ==>
      r.value < |users| && users[r.value].id == id && forall j :: 0 <= j < r.value ==> users[j].id != id
    ensures r.None? ==> forall j :: 0 <= j < |users| ==> users[j].id != id
  {
    IndexWhere(users, (u: User) => u.id == id)
  }

  /** The lookup of `getUser`: the first record with the id, password included. */
  function LookupUser(users: seq<User>, id: int): (r: Result<Reply<User>>)
    ensures r.Failure? <==> forall j :: 0 <= j < |users| ==> users[j].id != id
    ensures r.Failure? ==> r.message == UserNotFound
    ensures r.Success? ==>
      && r.value.message == ""
      && r.value.value.id == id
      && exists k :: 0 <= k < |users| && users[k] == r.value.value && forall j :: 0 <= j < k ==> users[j].id != id
  {
    match FindById(users, id)
    case None => Failure(UserNotFound)
    case Some(k) => Success(Reply("", users[k]))
  }

  // ------------------------------------------------------------ id invariant

  /** Ids strictly increase along the table, the shape records take when every id
      is appended as the last id plus one. */
  ghost predicate IdsIncreasing(users: seq<User>) {
    forall i, j :: 0 <= i < j < |users| ==> users[i].id < users[j].id
  }

  /** With increasing ids the last record carries the largest id, so "last id + 1"
      is "largest id + 1". */
  lemma {:induction false} LastIdIsMax(users: seq<User>)
    requires IdsIncreasing(users) && users != []
    ensures forall u :: u in users ==> u.id <= users[|users| - 1].id
  {
  }

  /** With increasing ids at most one record has a given id. */
  lemma IdsIncreasingUnique(users: seq<User>, i: nat, j: nat)
    requires IdsIncreasing(users) && i < |users| && j < |users|
    requires users[i].id == users[j].id
    ensures i == j
  {
  }

  /** The invariant survives appending a record whose id is the last plus one. */
  lemma AppendKeepsIdsIncreasing(users: seq<User>, rec: User)
    requires IdsIncreasing(users) && users != [] && rec.id == users[|users| - 1].id + 1
    ensures IdsIncreasing(users + [rec])
  {
    var s := users + [rec];
    forall i, j | 0 <= i < j < |s|
      ensures s[i].id < s[j].id
    {
      if j == |users| {
        assert s[i].id <= users[|users| - 1].id;
      }
    }
  }

  /** Removing one record keeps the order of the rest, removes exactly that record,
      and keeps the invariant. */
  lemma RemoveAt(users: seq<User>, k: nat)
    requires k < |users|
    ensures multiset(users[..k] + users[k + 1..]) == multiset(users) - multiset{users[k]}
    ensures IdsIncreasing(users) ==> IdsIncreasing(users[..k] + users[k + 1..])
    ensures IdsIncreasing(users) ==> forall u :: u in users[..k] + users[k + 1..] ==> u.id != users[k].id
  {
    RemoveAtMultiset(users, k);
    if IdsIncreasing(users) {
      RemoveAtIncreasing(users, k);
      RemoveAtAbsent(users, k);
    }
  }

  lemma RemoveAtMultiset(users: seq<User>, k: nat)
    requires k < |users|
    ensures multiset(users[..k] + users[k + 1..]) == multiset(users) - multiset{users[k]}
  {
    assert users == users[..k] + [users[k]] + users[k + 1..];
  }

  lemma RemoveAtIncreasing(users: seq<User>, k: nat)
    requires k < |users| && IdsIncreasing(users)
    ensures IdsIncreasing(users[..k] + users[k + 1..])
  {
    var s := users[..k] + users[k + 1..];
    forall i, j | 0 <= i < j < |s|
      ensures s[i].id < s[j].id
    {
      var i', j' := if i < k then i else i + 1, if j < k then j else j + 1;
      assert s[i] == users[i'] && s[j] == users[j'];
    }
  }

  lemma RemoveAtAbsent(users: seq<User>, k: nat)
    requires k < |users| && IdsIncreasing(users)
    ensures forall u :: u in users[..k] + users[k + 1..] ==> u.id != users[k].id
  {
    var s := users[..k] + users[k + 1..];
    forall u | u in s
      ensures u.id != users[k].id
    {
      var i :| 0 <= i < |s| && s[i] == u;
      var i' := if i < k then i else i + 1;
      assert s[i] == users[i'];
    }
  }

  /** The record `createUser` builds: `{ id, dateJoined, status: PENDING, ...patch }`. */
  function NewRecord(patch: UserPatch, id: int, now: string): (r: User)
    requires patch.name.Some? && patch.email.Some? && patch.role.Some?
    ensures r.id == (if patch.id.Some? then patch.id.value else id)
    ensures r.status == (if patch.status.Some? then patch.status.value else Pending)
    ensures r.dateJoined == (if patch.dateJoined.Some? then patch.dateJoined.value else now)
    ensures r.name == patch.name.value && r.email == patch.email.value && r.role == patch.role.value
    ensures r.password == patch.password
  {
    Merge(User(id, "", "", Viewer, Pending, now, None), patch)
  }

  // ------------------------------------------------------------- the service

  class MockApi {
    /** The user table. */
    var users: seq<User>
    /** When set, the next operation other than `getRoles` fails and clears it. */
    var simulatedError: bool

    constructor (initial: seq<User>)
      ensures users == initial && !simulatedError
    {
      users := initial;
      simulatedError := false;
    }

    method Login(email: string, password: string) returns (r: Result<Reply<LoginData>>)
      modifies this
      ensures users == old(users) && !simulatedError
      ensures old(simulatedError) ==> r == Failure(LoginFailed)
      ensures !old(simulatedError) ==> r == Authenticate(users, email, password)
    {
      if simulatedError {
        simulatedError := false;
        return Failure(LoginFailed);
      }
      r := Authenticate(users, email, password);
    }

    method GetUsers(params: GetUsersParams) returns (r: Result<Reply<UsersPage>>)
      modifies this
      ensures users == old(users) && !simulatedError
      ensures old(simulatedError) ==> r == Failure(UsersFetchFailed)
      ensures !old(simulatedError) ==> r.Success? && r.value.message == "" && Answers(users, params, r.value.value)
    {
      if simulatedError {
        simulatedError := false;
        return Failure(UsersFetchFailed);
      }
      var page := QueryUsers(users, params);
      r := Success(Reply("", page));
    }

    method GetUser(id: int) returns (r: Result<Reply<User>>)
      modifies this
      ensures users == old(users) && !simulatedError
      ensures old(simulatedError) ==> r == Failure(UserFetchFailed)
      ensures !old(simulatedError) ==> r == LookupUser(users, id)
    {
      if simulatedError {
        simulatedError := false;
        return Failure(UserFetchFailed);
      }
      r := LookupUser(users, id);
    }

    /** Appends `{ id: last id + 1, dateJoined: now, status: PENDING, ...patch }`;
        `now` stands for the call-time ISO timestamp. */
    method CreateUser(patch: UserPatch, now: string) returns (r: Result<Reply<User>>)
      requires patch.name.Some? && patch.email.Some? && patch.role.Some?
      modifies this
      ensures !simulatedError
      ensures old(simulatedError) ==> r == Failure(UserCreateFailed) && users == old(users)
      ensures !old(simulatedError) && old(users) == [] ==> r == Failure(NoLastRecord) && users == old(users)
      ensures !old(simulatedError) && old(users) != [] ==>
        var rec := NewRecord(patch, old(users)[|old(users)| - 1].id + 1, now);
        users == old(users) + [rec] && r == Success(Reply(UserCreated, rec))
      ensures IdsIncreasing(old(users)) && patch.id.None? ==> IdsIncreasing(users)
    {
      if simulatedError {
        simulatedError := false;
        return Failure(UserCreateFailed);
      }
      if users == [] {
        return Failure(NoLastRecord);
      }
      var rec := NewRecord(patch, users[|users| - 1].id + 1, now);
      if IdsIncreasing(users) && patch.id.None? {
        AppendKeepsIdsIncreasing(users, rec);
      }
      users := users + [rec];
      r := Success(Reply(UserCreated, rec));
    }

    /** Replaces the first record with the id by `{ ...record, ...patch }`. */
    method UpdateUser(id: int, patch: UserPatch) returns (r: Result<Reply<User>>)
      modifies this
      ensures !simulatedError
      ensures old(simulatedError) ==> r == Failure(UserUpdateFailed) && users == old(users)
      ensures !old(simulatedError) ==>
        match FindById(old(users), id)
        case None => r == Failure(UserNotFound) && users == old(users)
        case Some(k) =>
          && users == old(users)[k := Merge(old(users)[k], patch)]
          && r == Success(Reply(UserUpdated, users[k]))
      ensures IdsIncreasing(old(users)) && patch.id.None? ==> IdsIncreasing(users)
    {
      if simulatedError {
        simulatedError := false;
        return Failure(UserUpdateFailed);
      }
      match FindById(users, id) {
        case None =>
          return Failure(UserNotFound);
        case Some(k) =>
          users := users[k := Merge(users[k], patch)];
          r := Success(Reply(UserUpdated, users[k]));
      }
    }

    /** Removes the first record with the id. */
    method DeleteUser(id: int) returns (r: Result<Reply<()>>)
      modifies this
      ensures !simulatedError
      ensures old(simulatedError) ==> r == Failure(UserUpdateFailed) && users == old(users)
      ensures !old(simulatedError) ==>
        match FindById(old(users), id)
        case None => r == Failure(UserNotFound) && users == old(users)
        case Some(k) =>
          && users == old(users)[..k] + old(users)[k + 1..]
          && r == Success(Reply(UserDeleted, ()))
      ensures IdsIncreasing(old(users)) ==> IdsIncreasing(users)
      ensures !old(simulatedError) && IdsIncreasing(old(users)) ==>
        forall j :: 0 <= j < |users| ==> users[j].id != id
    {
      if simulatedError {
        simulatedError := false;
        return Failure(UserUpdateFailed);
      }
      match FindById(users, id) {
        case None =>
          return Failure(UserNotFound);
        case Some(k) =>
          RemoveAt(users, k);
          users := users[..k] + users[k + 1..];
          r := Success(Reply(UserDeleted, ()));
      }
    }

    /** The role list; this operation has no failure path and leaves the switch alone. */
    method GetRoles() returns (roles: seq<Role>)
      ensures roles == [Admin, Manager, Viewer]
      ensures forall role: Role :: role in roles
    {
      roles := Roles;
      forall role: Role
        ensures role in roles
      {
        match role
        case Admin => assert roles[0] == Admin;
        case Manager => assert roles[1] == Manager;
        case Viewer => assert roles[2] == Viewer;
      }
    }
  }

  /** Two records with ids 1 and 2: a created record gets id 3 and status PENDING,
      and once record 1 is deleted it can no longer be fetched. A simulated error
      fails exactly one call and leaves the table as it was. */
  method CreateDeleteScenario() returns (created: Result<Reply<User>>, deleted: Result<Reply<()>>,
                                         fetched: Result<Reply<User>>, failed: Result<Reply<User>>,
                                         again: Result<Reply<User>>)
    ensures created.Success? && created.value.value.id == 3 && created.value.value.status == Pending
    ensures deleted == Success(Reply(UserDeleted, ()))
    ensures fetched == Failure(UserNotFound)
    ensures failed == Failure(UserFetchFailed)
    ensures again.Success? && again.value.value.id == 2 && again.value.value.name == "Bob"
  {
    var ann := User(1, "Ann", "ann@example.com", Admin, Active, "2024-01-01", Some("a"));
    var bob := User(2, "Bob", "bob@example.com", Viewer, Active, "2024-02-01", Some("b"));
    var api := new MockApi([ann, bob]);
    var carol := UserPatch(None, Some("Carol"), Some("carol@example.com"), Some(Manager), None, None, Some("c"));
    created := api.CreateUser(carol, "2025-03-18T00:00:00.000Z");
    assert created.Success? && created.value.value.id == 3;
    deleted := api.DeleteUser(1);
    assert FindById([ann, bob, created.value.value], 1) == Some(0);
    fetched := api.GetUser(1);
    api.simulatedError := true;
    failed := api.GetUser(2);
    again := api.GetUser(2);
  }
}
