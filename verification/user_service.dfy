/** `UserServiceImpl`: account creation and maintenance. Every operation is
    one transaction: on an error the directory is left as it was. The
    password encoder is the `encode`/`matches` pair, and password policy is
    resolved from the security settings table. */
module UserService {
  import opened Wrappers
  import opened Text
  import opened Identity
  import SecuritySettings
  import UserSearch

  /** The `ResponseStatusException`s, and the repository's non-unique-result failure. */
  datatype UserError =
    | EmailExists                       // 400 "Email already exists"
    | WeakPassword(reason: SecuritySettings.PasswordError)   // 400 with the policy message
    | UnresolvedRoles(missing: set<string>, ambiguous: set<string>)  // 400 "Role not found: <one of missing>"
    | InstituteNotFound                 // 400
    | UserNotFound                      // 404
    | InvalidOldPassword                // 400

  datatype CreateUserRequest = CreateUserRequest(
    name: string, email: string, password: string, phone: Option<string>,
    instituteId: Option<Id>, roles: Option<set<string>>)

  datatype UpdateUserRequest = UpdateUserRequest(
    name: string, email: string, phone: Option<string>, active: bool,
    instituteId: Option<Id>, roles: Option<set<string>>)

  /** The response body of the user endpoints (`UserMapper.toDTO`). */
  datatype UserView = UserView(
    id: Id, name: string, email: string, phone: Option<string>, active: bool,
    failedLoginAttempts: int, accountLocked: bool, instituteId: Option<Id>, roles: set<string>)

  /** The settings and encoder the service is configured with. */
  datatype UserEnv = UserEnv(
    settings: SecuritySettings.Table,
    decrypt: string -> Option<string>,
    encode: string -> string,
    matches: (string, string) -> bool)

  const ResetPassword: string := "Default@123"

  function ToView(dir: Directory, id: Id): (v: UserView)
    requires id in dir.users
    ensures v.id == id && v.email == dir.users[id].email
    ensures v.roles == RoleNames(dir, dir.users[id])
  {
    var u := dir.users[id];
    UserView(id, u.name, u.email, u.phone, u.active, u.failedLoginAttempts, u.accountLocked, u.institute,
             RoleNames(dir, u))
  }

  /** The ids for a set of role names, each looked up by name; any name that
      is missing or not unique fails the whole lookup. */
  function ResolveRoles(roles: map<Id, Role>, names: set<string>): (r: Result<set<Id>, UserError>)
    ensures r.Ok? <==> forall n :: n in names ==> RoleByName(roles, n).Single?
    ensures r.Ok? ==> forall id :: id in r.value <==> id in roles && roles[id].name in names
    ensures r.Ok? ==> (set id | id in r.value :: roles[id].name) == names
  {
    var missing := set n | n in names && RoleByName(roles, n).Missing?;
    var ambiguous := set n | n in names && RoleByName(roles, n).Ambiguous?;
    if missing != {} || ambiguous != {} then
      Err(UnresolvedRoles(missing, ambiguous))
    else
      assert forall n :: n in names ==> RoleByName(roles, n).Single? by {
        forall n | n in names ensures RoleByName(roles, n).Single? {
          assert n !in missing && n !in ambiguous;
        }
      }
      var ids := set n | n in names :: RoleByName(roles, n).key;
      assert forall id :: id in roles && roles[id].name in names ==> id in ids by {
        forall id | id in roles && roles[id].name in names ensures id in ids {
          assert RoleByName(roles, roles[id].name).key == id;
        }
      }
      assert forall n :: n in names ==> n in (set id | id in ids :: roles[id].name) by {
        forall n | n in names ensures n in (set id | id in ids :: roles[id].name) {
          assert RoleByName(roles, n).key in ids;
        }
      }
      Ok(ids)
  }

  /** `createUser`: the new account is active, unlocked, with a zero counter,
      an encoded password and the named roles (none when the list is null or
      empty). Checks run in the source's order: email, password policy (of
      the requested institute's tenant), roles, institute. */
  function CreateUser(dir: Directory, env: UserEnv, req: CreateUserRequest, newId: Id)
    : (r: Result<(UserView, Directory), UserError>)
    requires newId !in dir.users
    ensures r.Ok? ==>
              var d := r.value.1;
              && d.users.Keys == dir.users.Keys + {newId}
              && (forall id :: id in dir.users ==> d.users[id] == dir.users[id])
              && d.roles == dir.roles && d.permissions == dir.permissions && d.institutes == dir.institutes
              && d.users[newId].email == req.email && d.users[newId].password == env.encode(req.password)
              && d.users[newId].active && !d.users[newId].deleted && !d.users[newId].accountLocked
              && d.users[newId].failedLoginAttempts == 0
              && r.value.0 == ToView(d, newId)
    ensures r.Ok? <==>
              && !EmailTaken(dir.users, req.email)
              && SecuritySettings.ValidatePassword(req.password,
                   SecuritySettings.PolicyOf(env.settings, req.instituteId, env.decrypt)).None?
              && (req.roles.None? || forall n :: n in req.roles.value ==> RoleByName(dir.roles, n).Single?)
              && (req.instituteId.None? || req.instituteId.value in dir.institutes)
    ensures EmailTaken(dir.users, req.email) ==> r == Err(EmailExists)
  {
    if EmailTaken(dir.users, req.email) then Err(EmailExists)
    else
      match SecuritySettings.ValidatePassword(req.password,
              SecuritySettings.PolicyOf(env.settings, req.instituteId, env.decrypt))
      case Some(e) => Err(WeakPassword(e))
      case None =>
        var roles :- RequestedRoles(dir.roles, req.roles);
        StoreNew(dir, env, req, roles, newId)
  }

  /** The role ids `createUser` gives: none for a null or empty list,
      otherwise every name resolved. */
  function RequestedRoles(roles: map<Id, Role>, names: Option<set<string>>): (r: Result<set<Id>, UserError>)
    ensures r.Ok? <==> names.None? || forall n :: n in names.value ==> RoleByName(roles, n).Single?
    ensures r.Ok? ==> forall id :: id in r.value <==> id in roles && names.Some? && roles[id].name in names.value
    ensures r.Ok? ==> (set id | id in r.value :: roles[id].name) == names.GetOr({})
  {
    if names.Some? && names.value != {} then ResolveRoles(roles, names.value) else Ok({})
  }

  /** The last step of `createUser`: the institute check, then the new
      account saved with the resolved role ids. */
  function StoreNew(dir: Directory, env: UserEnv, req: CreateUserRequest, roles: set<Id>, newId: Id)
    : (r: Result<(UserView, Directory), UserError>)
    requires newId !in dir.users
    ensures r.Ok? <==> req.instituteId.None? || req.instituteId.value in dir.institutes
    ensures r.Err? ==> r.error == InstituteNotFound
    ensures r.Ok? ==>
              var d := r.value.1;
              && d.users == dir.users[newId := User(req.name, req.email, req.phone, env.encode(req.password),
                                                    true, false, false, 0, None, roles, req.instituteId)]
              && d.roles == dir.roles && d.permissions == dir.permissions && d.institutes == dir.institutes
              && r.value.0 == ToView(d, newId)
  {
    if req.instituteId.Some? && req.instituteId.value !in dir.institutes then Err(InstituteNotFound)
    else
      var u := User(req.name, req.email, req.phone, env.encode(req.password), true, false, false, 0, None,
                    roles, req.instituteId);
      var d := dir.(users := dir.users[newId := u]);
      Ok((ToView(d, newId), d))
  }

  /** Created roles are exactly the requested names. */
  lemma CreatedRolesAsRequested(dir: Directory, env: UserEnv, req: CreateUserRequest, newId: Id)
    requires newId !in dir.users
    requires CreateUser(dir, env, req, newId).Ok?
    ensures CreateUser(dir, env, req, newId).value.0.roles == req.roles.GetOr({})
  {
    var d := CreateUser(dir, env, req, newId).value.1;
    var ids := RequestedRoles(dir.roles, req.roles).value;
    assert d.users[newId].roles == ids;
    assert RoleNames(d, d.users[newId]) == (set id | id in ids :: dir.roles[id].name);
  }

  /** `getUserById`. */
  function GetUserById(dir: Directory, id: Id): (r: Result<UserView, UserError>)
    ensures r.Err? <==> id !in dir.users
    ensures r.Ok? ==> r.value == ToView(dir, id)
  {
    if id !in dir.users then Err(UserNotFound) else Ok(ToView(dir, id))
  }

  /** `updateUser`: name, email, phone and active are overwritten; roles are
      replaced when a list is given (an empty list clears them); the
      institute changes only when one is given. A changed email must be free. */
  function UpdateUser(dir: Directory, id: Id, req: UpdateUserRequest): (r: Result<(UserView, Directory), UserError>)
    ensures r.Ok? ==> id in dir.users && r.value.1.users.Keys == dir.users.Keys
    ensures r.Ok? ==>
              var d := r.value.1;
              var u := d.users[id];
              && (forall other :: other in dir.users && other != id ==> d.users[other] == dir.users[other])
              && u.name == req.name && u.email == req.email && u.phone == req.phone && u.active == req.active
              && u.password == dir.users[id].password && u.deleted == dir.users[id].deleted
              && u.accountLocked == dir.users[id].accountLocked
              && u.failedLoginAttempts == dir.users[id].failedLoginAttempts
              && (req.roles.None? ==> u.roles == dir.users[id].roles)
              && (req.roles.Some? ==> RoleNames(d, u) == req.roles.value)
              && u.institute == (if req.instituteId.Some? then req.instituteId else dir.users[id].institute)
              && r.value.0 == ToView(d, id)
    ensures r.Ok? <==>
              && id in dir.users
              && !(dir.users[id].email != req.email && EmailTaken(dir.users, req.email))
              && (req.roles.None? || forall n :: n in req.roles.value ==> RoleByName(dir.roles, n).Single?)
              && (req.instituteId.None? || req.instituteId.value in dir.institutes)
    ensures id !in dir.users ==> r == Err(UserNotFound)
    ensures id in dir.users && dir.users[id].email != req.email && EmailTaken(dir.users, req.email) ==>
              r == Err(EmailExists)
    ensures r.Err? && r.error.UnresolvedRoles? ==>
              req.roles.Some? && exists n :: n in req.roles.value && !RoleByName(dir.roles, n).Single?
    ensures r == Err(InstituteNotFound) <==>
              && id in dir.users
              && !(dir.users[id].email != req.email && EmailTaken(dir.users, req.email))
              && (req.roles.None? || forall n :: n in req.roles.value ==> RoleByName(dir.roles, n).Single?)
              && req.instituteId.Some? && req.instituteId.value !in dir.institutes
  {
    if id !in dir.users then Err(UserNotFound)
    else
      var u := dir.users[id];
      if u.email != req.email && EmailTaken(dir.users, req.email) then Err(EmailExists)
      else
        var roles :- if req.roles.Some? then ResolveRoles(dir.roles, req.roles.value) else Ok(u.roles);
        if req.instituteId.Some? && req.instituteId.value !in dir.institutes then Err(InstituteNotFound)
        else
          var u2 := u.(name := req.name, email := req.email, phone := req.phone, active := req.active,
                       roles := roles, institute := if req.instituteId.Some? then req.instituteId else u.institute);
          var d := dir.(users := dir.users[id := u2]);
          assert req.roles.Some? ==> RoleNames(d, u2) == (set rid | rid in roles :: dir.roles[rid].name);
          Ok((ToView(d, id), d))
  }

  /** No two accounts share an email: the invariant the `existsByEmail`
      checks of `createUser` and `updateUser` keep. */
  predicate EmailsUnique(users: map<Id, User>) {
    forall a, b :: a in users && b in users && users[a].email == users[b].email ==> a == b
  }

  /** An update never makes two accounts share an email. */
  lemma UpdateKeepsEmailsUnique(dir: Directory, id: Id, req: UpdateUserRequest)
    requires EmailsUnique(dir.users)
    requires UpdateUser(dir, id, req).Ok?
    ensures EmailsUnique(UpdateUser(dir, id, req).value.1.users)
  {
    var d := UpdateUser(dir, id, req).value.1;
    forall a, b | a in d.users && b in d.users && d.users[a].email == d.users[b].email
      ensures a == b
    {
      if a != b && (a == id || b == id) {
        var other := if a == id then b else a;
        assert d.users[other] == dir.users[other] && dir.users[other].email == req.email;
        assert EmailTaken(dir.users, req.email);
      }
    }
  }

  /** A created account never shares its email with another. */
  lemma CreateKeepsEmailsUnique(dir: Directory, env: UserEnv, req: CreateUserRequest, newId: Id)
    requires newId !in dir.users
    requires EmailsUnique(dir.users)
    requires CreateUser(dir, env, req, newId).Ok?
    ensures EmailsUnique(CreateUser(dir, env, req, newId).value.1.users)
  {
  }

  /** A flag change on one user: `deleteUser` (soft delete), `activateUser`, `deactivateUser`. */
  datatype StatusChange = Delete | Activate | Deactivate

  function ChangeStatus(dir: Directory, id: Id, change: StatusChange): (r: Result<Directory, UserError>)
    ensures r.Err? <==> id !in dir.users
    ensures r.Ok? ==> r.value.users.Keys == dir.users.Keys
    ensures r.Ok? ==>
              var u := dir.users[id];
              var u2 := r.value.users[id];
              && (forall other :: other in dir.users && other != id ==> r.value.users[other] == dir.users[other])
              && u2.active == change.Activate?
              && u2.deleted == (u.deleted || change.Delete?)
              && u2 == u.(active := u2.active, deleted := u2.deleted)
  {
    if id !in dir.users then Err(UserNotFound)
    else
      var u := dir.users[id];
      var u2 := match change
        case Delete => u.(deleted := true, active := false)
        case Activate => u.(active := true)
        case Deactivate => u.(active := false);
      Ok(dir.(users := dir.users[id := u2]))
  }

  /** A deleted user disappears from every search, whatever the filters. */
  lemma DeletedNeverListed(dir: Directory, id: Id, institute: Option<Id>, f: UserSearch.Filter)
    requires ChangeStatus(dir, id, Delete).Ok?
    ensures id !in UserSearch.Search(ChangeStatus(dir, id, Delete).value, institute, f)
  {
  }

  /** `resetPassword`: the stored password becomes the encoded fixed default. */
  function ResetUserPassword(dir: Directory, env: UserEnv, id: Id): (r: Result<Directory, UserError>)
    ensures r.Err? <==> id !in dir.users
    ensures r.Ok? ==> r.value.users == dir.users[id := dir.users[id].(password := env.encode(ResetPassword))]
  {
    if id !in dir.users then Err(UserNotFound)
    else Ok(dir.(users := dir.users[id := dir.users[id].(password := env.encode(ResetPassword))]))
  }

  /** The reset password meets the built-in password policy. */
  lemma ResetPasswordMeetsDefaultPolicy(tenantId: Option<string>, decrypt: string -> Option<string>)
    ensures SecuritySettings.ValidatePassword(ResetPassword, SecuritySettings.PolicyOf(map[], tenantId, decrypt)).None?
  {
    ResetPasswordShape();
    SecuritySettings.EmptyTablePasswordPolicy(ResetPassword, tenantId, decrypt);
  }

  /** "Default@123" is eleven BMP characters with one of each class. */
  lemma ResetPasswordShape()
    ensures Utf16Length(ResetPassword) >= 8
    ensures SecuritySettings.HasClass(ResetPassword, SecuritySettings.UpperCase)
    ensures SecuritySettings.HasClass(ResetPassword, SecuritySettings.LowerCase)
    ensures SecuritySettings.HasClass(ResetPassword, SecuritySettings.Digit)
    ensures SecuritySettings.HasClass(ResetPassword, SecuritySettings.Special)
  {
    Utf16LengthBmp(ResetPassword);
    assert SecuritySettings.InClass(ResetPassword[0], SecuritySettings.UpperCase);
    assert SecuritySettings.InClass(ResetPassword[1], SecuritySettings.LowerCase);
    assert SecuritySettings.InClass(ResetPassword[8], SecuritySettings.Digit);
    assert SecuritySettings.SpecialChars[1] == '@';
    assert SecuritySettings.InClass(ResetPassword[7], SecuritySettings.Special);
  }

  lemma {:induction false} Utf16LengthBmp(s: string)
    requires forall i :: 0 <= i < |s| ==> s[i] as int <= 0xFFFF
    ensures Utf16Length(s) == |s|
  {
    if |s| > 0 {
      Utf16LengthBmp(s[..|s| - 1]);
    }
  }

  /** `changePassword`: the old password must match; the new one is encoded
      and stored without a policy check. */
  function ChangePassword(dir: Directory, env: UserEnv, id: Id, oldPassword: string, newPassword: string)
    : (r: Result<Directory, UserError>)
    ensures id !in dir.users ==> r == Err(UserNotFound)
    ensures id in dir.users && !env.matches(oldPassword, dir.users[id].password) ==> r == Err(InvalidOldPassword)
    ensures r.Ok? <==> id in dir.users && env.matches(oldPassword, dir.users[id].password)
    ensures r.Ok? ==> r.value.users == dir.users[id := dir.users[id].(password := env.encode(newPassword))]
  {
    if id !in dir.users then Err(UserNotFound)
    else if !env.matches(oldPassword, dir.users[id].password) then Err(InvalidOldPassword)
    else Ok(dir.(users := dir.users[id := dir.users[id].(password := env.encode(newPassword))]))
  }

  /** With an encoder whose check accepts exactly the encoded password, a
      changed password is the one the next change must present, and a
      different old password is refused from then on. */
  lemma ChangedPasswordIsCurrent(dir: Directory, env: UserEnv, id: Id, oldPassword: string, newPassword: string,
                                 nextPassword: string, stale: string)
    requires forall p, q :: env.matches(p, env.encode(q)) <==> p == q
    requires ChangePassword(dir, env, id, oldPassword, newPassword).Ok?
    ensures var d := ChangePassword(dir, env, id, oldPassword, newPassword).value;
            && ChangePassword(d, env, id, newPassword, nextPassword).Ok?
            && (stale != newPassword ==> ChangePassword(d, env, id, stale, nextPassword) == Err(InvalidOldPassword))
  {
  }

  /** `getAllUsers`: a null query searches with "", and `includeDeleted` is ignored. */
  function GetAllUsers(dir: Directory, query: Option<string>, institute: Option<Id>, role: Option<string>,
                       active: Option<bool>, accountLocked: Option<bool>, includeDeleted: bool): (ids: set<Id>)
    ensures forall id :: id in ids ==> id in dir.users && !dir.users[id].deleted
    ensures forall id :: id in ids <==>
              id in dir.users && (institute.None? || dir.users[id].institute == institute)
              && UserSearch.Matches(dir, dir.users[id], UserSearch.Filter(query.GetOr(""), role, active, accountLocked))
  {
    UserSearch.Search(dir, institute, UserSearch.Filter(query.GetOr(""), role, active, accountLocked))
  }

  /** `includeDeleted` changes nothing, and a missing query lists what the
      empty query lists: every non-deleted user the other filters admit. */
  lemma GetAllUsersArguments(dir: Directory, institute: Option<Id>, role: Option<string>,
                             active: Option<bool>, accountLocked: Option<bool>)
    ensures GetAllUsers(dir, None, institute, role, active, accountLocked, true)
            == GetAllUsers(dir, None, institute, role, active, accountLocked, false)
    ensures forall id :: id in GetAllUsers(dir, None, institute, role, active, accountLocked, true) <==>
              id in dir.users && !dir.users[id].deleted
              && (institute.None? || dir.users[id].institute == institute)
              && (role.None? || role.value in RoleNames(dir, dir.users[id]))
              && (active.None? || dir.users[id].active == active.value)
              && (accountLocked.None? || dir.users[id].accountLocked == accountLocked.value)
  {
    forall id | id in dir.users {
      UserSearch.EmptyQueryMatchesAll(dir, dir.users[id], UserSearch.Filter("", role, active, accountLocked));
    }
  }
}
