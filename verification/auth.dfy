/** `AuthServiceImpl`: login with failed-attempt counting and temporary
    account lock-out, and impersonation.

    Spring Security's `AuthenticationManager` is modelled by `Authenticate`,
    which follows the DAO provider's order of checks against the
    `UserDetails` (locked, then disabled, then password). The password
    encoder's `matches` is a parameter, the clock is `now` in milliseconds,
    and the issued JWT is represented by the `Authentication` it is signed
    from. Lock duration and attempt limit come from the security settings
    table, resolved as `SecuritySettings.EffectiveValue` does. */
module Auth {
  import opened Wrappers
  import opened Text
  import opened Identity
  import opened UserDetailsService
  import SecuritySettings

  /** What a token is generated from: the principal's email and authorities. */
  datatype Authentication = Authentication(principal: string, authorities: set<string>)

  /** The `AuthenticationException` kinds the provider raises. */
  datatype AuthFailure = BadCredentials | AccountLocked | AccountDisabled | LookupFailure

  /** One request's view of the environment login depends on. */
  datatype LoginEnv = LoginEnv(
    settings: SecuritySettings.Table,
    decrypt: string -> Option<string>,
    matches: (string, string) -> bool,
    now: int)

  const MillisPerMinute: int := 60000

  /** `authenticationManager.authenticate` with the DAO provider: an unknown
      email reads as bad credentials. */
  function Authenticate(dir: Directory, email: string, password: string, matches: (string, string) -> bool)
    : (r: Result<Authentication, AuthFailure>)
    ensures r.Ok? <==>
              UserByEmail(dir.users, email).Single?
              && var u := dir.users[UserByEmail(dir.users, email).key];
                 !u.accountLocked && u.active && matches(password, u.password)
    ensures r.Ok? ==> r.value.principal == email
                      && r.value.authorities == Authorities(dir, dir.users[UserByEmail(dir.users, email).key])
  {
    match LoadUserByUsername(dir, email)
    case Err(UsernameNotFound(_)) => Err(BadCredentials)
    case Err(NonUniqueEmail) => Err(LookupFailure)
    case Ok(d) =>
      if !d.accountNonLocked then Err(AccountLocked)
      else if !d.enabled then Err(AccountDisabled)
      else if !matches(password, d.password) then Err(BadCredentials)
      else Ok(Authentication(d.username, d.authorities))
  }

  datatype LoginError =
    | LockedOut                 // "Account is locked. Try again later."
    | AuthFailed(reason: AuthFailure)
    | SettingNotNumeric         // a policy value `parseInt`/`parseLong` rejects
    | EmailNotUnique

  /** The lock has run out: `lockTime.plusMinutes(d).isBefore(now)`. */
  predicate LockExpired(u: User, lockMinutes: int, now: int) {
    u.lockTime.Some? && u.lockTime.value + lockMinutes * MillisPerMinute < now
  }

  function Unlocked(u: User): User {
    u.(accountLocked := false, failedLoginAttempts := 0, lockTime := None)
  }

  /** A failed attempt: the counter goes up (Java `int`), and reaching the
      limit locks the account from now. */
  function Failed(u: User, maxAttempts: int, now: int): User {
    var n := WrapInt(u.failedLoginAttempts + 1);
    if n >= maxAttempts then u.(failedLoginAttempts := n, accountLocked := true, lockTime := Some(now))
    else u.(failedLoginAttempts := n)
  }

  /** `login`: the directory after the call and its outcome. Every write is
      a save of its own, so an unlock stays even when the login then fails. */
  function Login(dir: Directory, env: LoginEnv, email: string, password: string)
    : (r: (Result<Authentication, LoginError>, Directory))
    ensures r.1.roles == dir.roles && r.1.permissions == dir.permissions && r.1.institutes == dir.institutes
    ensures r.1.users.Keys == dir.users.Keys
    ensures !UserByEmail(dir.users, email).Single? ==> r.1 == dir && r.0.Err?
  {
    match UserByEmail(dir.users, email)
    case Ambiguous => (Err(EmailNotUnique), dir)
    case Missing => (Err(AuthFailed(BadCredentials)), dir)
    case Single(id) =>
      var u := dir.users[id];
      var tenant := u.institute;
      match (if u.accountLocked then SecuritySettings.LockDurationMinutes(env.settings, tenant, env.decrypt) else Some(0))
      case None => (Err(SettingNotNumeric), dir)
      case Some(lockMinutes) =>
        if u.accountLocked && !LockExpired(u, lockMinutes, env.now) then (Err(LockedOut), dir)
        else
          var dir1 := if u.accountLocked then dir.(users := dir.users[id := Unlocked(u)]) else dir;
          Attempt(dir1, env, id, tenant, email, password)
  }

  /** The authentication attempt of `login` once the account is not (or no
      longer) locked: success resets the counters, failure counts. */
  function Attempt(dir: Directory, env: LoginEnv, id: Id, tenant: Option<Id>, email: string, password: string)
    : (r: (Result<Authentication, LoginError>, Directory))
    requires id in dir.users
    ensures r.1.roles == dir.roles && r.1.permissions == dir.permissions && r.1.institutes == dir.institutes
    ensures r.1.users.Keys == dir.users.Keys
    ensures r.0.Ok? <==> Authenticate(dir, email, password, env.matches).Ok?
    ensures r.0.Ok? ==> r.0.value == Authenticate(dir, email, password, env.matches).value
  {
    var u := dir.users[id];
    match Authenticate(dir, email, password, env.matches)
    case Ok(auth) => (Ok(auth), dir.(users := dir.users[id := Unlocked(u)]))
    case Err(f) =>
      match SecuritySettings.MaxLoginAttempts(env.settings, tenant, env.decrypt)
      case None => (Err(SettingNotNumeric), dir)
      case Some(m) => (Err(AuthFailed(f)), dir.(users := dir.users[id := Failed(u, m, env.now)]))
  }

  /** A locked account whose lock has not run out is refused, whatever the
      password, and nothing is written. */
  lemma LockedRefused(dir: Directory, env: LoginEnv, email: string, password: string, id: Id, lockMinutes: int)
    requires UserByEmail(dir.users, email) == Single(id)
    requires dir.users[id].accountLocked
    requires SecuritySettings.LockDurationMinutes(env.settings, dir.users[id].institute, env.decrypt) == Some(lockMinutes)
    requires !LockExpired(dir.users[id], lockMinutes, env.now)
    ensures Login(dir, env, email, password) == (Err(LockedOut), dir)
  {
  }

  /** A successful login leaves the account unlocked with a zero counter
      and touches no other account. */
  lemma SuccessResets(dir: Directory, env: LoginEnv, email: string, password: string)
    requires Login(dir, env, email, password).0.Ok?
    ensures UserByEmail(dir.users, email).Single?
    ensures var id := UserByEmail(dir.users, email).key;
            var u := Login(dir, env, email, password).1.users[id];
            && !u.accountLocked && u.failedLoginAttempts == 0 && u.lockTime.None?
            && forall other :: other in dir.users && other != id ==>
                 Login(dir, env, email, password).1.users[other] == dir.users[other]
  {
  }

  /** A login succeeds exactly for an active account whose lock (if any)
      has run out and whose password matches. */
  lemma SuccessCharacterised(dir: Directory, env: LoginEnv, email: string, password: string)
    requires UserByEmail(dir.users, email).Single?
    ensures var u := dir.users[UserByEmail(dir.users, email).key];
            Login(dir, env, email, password).0.Ok? <==>
              && u.active && env.matches(password, u.password)
              && (u.accountLocked ==>
                    SecuritySettings.LockDurationMinutes(env.settings, u.institute, env.decrypt).Some?
                    && LockExpired(u, SecuritySettings.LockDurationMinutes(env.settings, u.institute, env.decrypt).value, env.now))
  {
    var id := UserByEmail(dir.users, email).key;
    var u := dir.users[id];
    if !u.accountLocked || (SecuritySettings.LockDurationMinutes(env.settings, u.institute, env.decrypt).Some?
                            && LockExpired(u, SecuritySettings.LockDurationMinutes(env.settings, u.institute, env.decrypt).value, env.now)) {
      var dir1 := if u.accountLocked then dir.(users := dir.users[id := Unlocked(u)]) else dir;
      SameEmailsSameLookup(dir.users, dir1.users, email);
    }
  }

  /** Rewriting users without changing any email keeps every email lookup. */
  lemma SameEmailsSameLookup(users1: map<Id, User>, users2: map<Id, User>, email: string)
    requires users1.Keys == users2.Keys
    requires forall id :: id in users1 ==> users1[id].email == users2[id].email
    ensures UserByEmail(users1, email) == UserByEmail(users2, email)
  {
    assert (set id | id in users1 && users1[id].email == email) == (set id | id in users2 && users2[id].email == email);
  }

  /** `login` repeated `k` times with the same arguments. */
  function LoginRepeated(dir: Directory, env: LoginEnv, email: string, password: string, k: nat): Directory
    decreases k
  {
    if k == 0 then dir else LoginRepeated(Login(dir, env, email, password).1, env, email, password, k - 1)
  }

  /** One failed attempt on an unlocked account below the limit. */
  lemma OneFailure(dir: Directory, env: LoginEnv, email: string, password: string, id: Id, m: int)
    requires UserByEmail(dir.users, email) == Single(id)
    requires !dir.users[id].accountLocked
    requires !env.matches(password, dir.users[id].password)
    requires SecuritySettings.MaxLoginAttempts(env.settings, dir.users[id].institute, env.decrypt) == Some(m)
    ensures Login(dir, env, email, password).1 == dir.(users := dir.users[id := Failed(dir.users[id], m, env.now)])
    ensures UserByEmail(Login(dir, env, email, password).1.users, email) == Single(id)
  {
    SameEmailsSameLookup(dir.users, Login(dir, env, email, password).1.users, email);
  }

  /** Lock-out: from an unlocked account with `done` earlier failures, `k`
      further failed attempts leave the counter at `done + k`, and the
      account is locked exactly when that reaches the attempt limit `m`;
      every one of them reaches the password check. */
  lemma {:induction false} RepeatedFailuresLock(dir: Directory, env: LoginEnv, email: string, password: string,
                                                id: Id, m: int, done: nat, k: nat)
    requires UserByEmail(dir.users, email) == Single(id)
    requires !dir.users[id].accountLocked && dir.users[id].failedLoginAttempts == done
    requires !env.matches(password, dir.users[id].password)
    requires SecuritySettings.MaxLoginAttempts(env.settings, dir.users[id].institute, env.decrypt) == Some(m)
    requires 1 <= k && done + k <= m
    ensures UserByEmail(LoginRepeated(dir, env, email, password, k).users, email) == Single(id)
    ensures var u := LoginRepeated(dir, env, email, password, k).users[id];
            u.failedLoginAttempts == done + k && (u.accountLocked <==> done + k == m)
            && u.password == dir.users[id].password && u.institute == dir.users[id].institute
    decreases k
  {
    var u := dir.users[id];
    OneFailure(dir, env, email, password, id, m);
    var next := Login(dir, env, email, password).1;
    assert LoginRepeated(dir, env, email, password, k) == LoginRepeated(next, env, email, password, k - 1);
    assert done + 1 <= m <= IntMax;
    assert next.users[id] == Failed(u, m, env.now);
    if k > 1 {
      RepeatedFailuresLock(next, env, email, password, id, m, done + 1, k - 1);
    }
  }

  datatype ImpersonateError = UserNotFound

  /** `impersonate`: an authentication for the user's email carrying only
      "ROLE_" authorities from the user's role names. */
  function Impersonate(dir: Directory, userId: Id): (r: Result<Authentication, ImpersonateError>)
    ensures r.Err? <==> userId !in dir.users
    ensures r.Ok? ==> r.value.principal == dir.users[userId].email
    ensures r.Ok? ==> forall n :: n in RoleNames(dir, dir.users[userId]) ==> RolePrefix + n in r.value.authorities
    ensures r.Ok? ==> forall a :: a in r.value.authorities ==>
                        StartsWith(a, RolePrefix) && a[|RolePrefix|..] in RoleNames(dir, dir.users[userId])
  {
    if userId !in dir.users then Err(UserNotFound)
    else
      var u := dir.users[userId];
      Ok(Authentication(u.email, RoleAuthorities(RoleNames(dir, u))))
  }

  /** Impersonation grants the user's role authorities and nothing more; it
      drops the permission authorities a real login would carry. */
  lemma ImpersonationWithinLogin(dir: Directory, userId: Id)
    requires userId in dir.users
    ensures var u := dir.users[userId];
            && Impersonate(dir, userId).value.authorities <= Authorities(dir, u)
            && Authorities(dir, u) == Impersonate(dir, userId).value.authorities + PermissionNames(dir, u)
  {
  }

  /** Impersonating the user a login succeeds for yields that login's
      principal and the role part of its authorities. */
  lemma ImpersonationAgreesWithLogin(dir: Directory, email: string, password: string,
                                     matches: (string, string) -> bool)
    requires Authenticate(dir, email, password, matches).Ok?
    ensures var id := UserByEmail(dir.users, email).key;
            var imp := Impersonate(dir, id);
            var auth := Authenticate(dir, email, password, matches).value;
            && imp.Ok? && imp.value.principal == auth.principal
            && imp.value.authorities <= auth.authorities
  {
    var id := UserByEmail(dir.users, email).key;
    ImpersonationWithinLogin(dir, id);
  }
}
