/** `CustomUserDetailsService`: the account view Spring Security
    authenticates against, built from the user row found by email. */
module UserDetailsService {
  import opened Wrappers
  import opened Identity
  import Tenancy

  datatype UserDetails = UserDetails(
    username: string,
    password: string,
    enabled: bool,
    accountNonExpired: bool,
    credentialsNonExpired: bool,
    accountNonLocked: bool,
    authorities: set<string>,
    tenantId: string)

  datatype LoadError =
    | UsernameNotFound(email: string)
    | NonUniqueEmail      // the repository's non-unique-result failure

  /** The authorities of a user: "ROLE_" plus each role name, and the name
      of every permission any of those roles grants. */
  function Authorities(dir: Directory, user: User): set<string> {
    RoleAuthorities(RoleNames(dir, user)) + PermissionNames(dir, user)
  }

  /** Every authority is traced back to one of the user's roles. */
  lemma AuthoritiesCharacterised(dir: Directory, user: User, a: string)
    ensures a in Authorities(dir, user) <==>
              (exists r :: r in user.roles && r in dir.roles && a == RolePrefix + dir.roles[r].name)
              || (exists r, p :: r in user.roles && r in dir.roles && p in dir.roles[r].permissions
                                 && p in dir.permissions && a == dir.permissions[p].name)
  {
    if a in RoleAuthorities(RoleNames(dir, user)) {
      var n := a[|RolePrefix|..];
      assert n in RoleNames(dir, user);
      var r :| r in user.roles && r in dir.roles && dir.roles[r].name == n;
      assert a == RolePrefix + dir.roles[r].name;
    }
    if exists r :: r in user.roles && r in dir.roles && a == RolePrefix + dir.roles[r].name {
      var r :| r in user.roles && r in dir.roles && a == RolePrefix + dir.roles[r].name;
      assert dir.roles[r].name in RoleNames(dir, user);
    }
  }

  /** `loadUserByUsername`: enabled follows `active`, the lock flag is
      negated, expiry flags are always true, and a user without an institute
      belongs to the "DEFAULT" tenant. */
  function LoadUserByUsername(dir: Directory, email: string): (r: Result<UserDetails, LoadError>)
    ensures r.Err? <==> !UserByEmail(dir.users, email).Single?
    ensures UserByEmail(dir.users, email).Missing? ==> r == Err(UsernameNotFound(email))
    ensures r.Ok? ==>
              var u := dir.users[UserByEmail(dir.users, email).key];
              && r.value.username == email && r.value.password == u.password
              && r.value.enabled == u.active && r.value.accountNonLocked == !u.accountLocked
              && r.value.accountNonExpired && r.value.credentialsNonExpired
              && r.value.authorities == Authorities(dir, u)
              && r.value.tenantId == u.institute.GetOr(Tenancy.DefaultTenant)
  {
    match UserByEmail(dir.users, email)
    case Missing => Err(UsernameNotFound(email))
    case Ambiguous => Err(NonUniqueEmail)
    case Single(id) =>
      var u := dir.users[id];
      Ok(UserDetails(u.email, u.password, u.active, true, true, !u.accountLocked, Authorities(dir, u),
                     if u.institute.Some? then u.institute.value else Tenancy.DefaultTenant))
  }
}
