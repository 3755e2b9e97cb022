/** The user directory shared by the user, role and authentication services:
    permissions, roles and users as the JPA entities hold them, with
    references between them by id. Ids are the entities' UUIDs, kept as
    strings; passwords are stored already encoded. */
module Identity {
  import opened Wrappers
  import opened Text

  type Id = string

  datatype Permission = Permission(name: string, description: Option<string>)

  datatype Role = Role(name: string, description: Option<string>, permissions: set<Id>)

  /** A user account. `lockTime` is a clock reading in milliseconds. */
  datatype User = User(
    name: string,
    email: string,
    phone: Option<string>,
    password: string,
    active: bool,
    deleted: bool,
    accountLocked: bool,
    failedLoginAttempts: int,
    lockTime: Option<int>,
    roles: set<Id>,
    institute: Option<Id>)

  /** The tables the services read and write. */
  datatype Directory = Directory(
    users: map<Id, User>,
    roles: map<Id, Role>,
    permissions: map<Id, Permission>,
    institutes: set<Id>)

  /** `userRepository.findByEmail`. */
  function UserByEmail(users: map<Id, User>, email: string): (r: Found<Id>)
    ensures r.Single? ==> r.key in users && users[r.key].email == email
    ensures r.Single? ==> forall id :: id in users && users[id].email == email ==> id == r.key
    ensures r.Missing? <==> !EmailTaken(users, email)
  {
    var ids := set id | id in users && users[id].email == email;
    assert EmailTaken(users, email) ==> ids != {} by {
      if EmailTaken(users, email) {
        var id :| id in users && users[id].email == email;
        assert id in ids;
      }
    }
    assert forall id :: id in users && users[id].email == email ==> id in ids;
    FindUnique(ids)
  }

  /** `userRepository.existsByEmail`; deleted accounts still hold their address. */
  predicate EmailTaken(users: map<Id, User>, email: string) {
    exists id :: id in users && users[id].email == email
  }

  /** `roleRepository.findByName`. */
  function RoleByName(roles: map<Id, Role>, name: string): (r: Found<Id>)
    ensures r.Single? ==> r.key in roles && roles[r.key].name == name
    ensures r.Single? ==> forall id :: id in roles && roles[id].name == name ==> id == r.key
    ensures r.Missing? <==> forall id :: id in roles ==> roles[id].name != name
  {
    var ids := set id | id in roles && roles[id].name == name;
    assert (exists id :: id in roles && roles[id].name == name) ==> ids != {} by {
      if exists id :: id in roles && roles[id].name == name {
        var id :| id in roles && roles[id].name == name;
        assert id in ids;
      }
    }
    assert forall id :: id in roles && roles[id].name == name ==> id in ids;
    FindUnique(ids)
  }

  /** Names of the user's roles (the DTO's `roles`). */
  function RoleNames(dir: Directory, user: User): set<string> {
    set r | r in user.roles && r in dir.roles :: dir.roles[r].name
  }

  /** Names of every permission granted by one of the user's roles. */
  function PermissionNames(dir: Directory, user: User): set<string> {
    set r, p | r in user.roles && r in dir.roles && p in dir.roles[r].permissions && p in dir.permissions
      :: dir.permissions[p].name
  }

  const RolePrefix: string := "ROLE_"

  /** Spring authorities for role names: each name prefixed with "ROLE_". */
  function RoleAuthorities(names: set<string>): (auths: set<string>)
    ensures forall n :: n in names ==> RolePrefix + n in auths
    ensures forall a :: a in auths ==> StartsWith(a, RolePrefix) && a[|RolePrefix|..] in names
  {
    set n | n in names :: RolePrefix + n
  }

  /** Prefixing loses nothing: the role names can be read back from the authorities. */
  lemma RoleAuthoritiesInjective(names1: set<string>, names2: set<string>)
    requires RoleAuthorities(names1) == RoleAuthorities(names2)
    ensures names1 == names2
  {
    forall n | n in names1 ensures n in names2 {
      assert (RolePrefix + n)[|RolePrefix|..] == n;
    }
    forall n | n in names2 ensures n in names1 {
      assert (RolePrefix + n)[|RolePrefix|..] == n;
    }
  }
}
