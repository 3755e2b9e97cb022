/** `RoleServiceImpl`: role creation, update and deletion over the role and
    permission tables of the directory, and the role's response body.
    Permission references arrive as DTOs and are resolved by id only. */
module RoleService {
  import opened Wrappers
  import opened Identity

  /** A permission reference as submitted: either field may be null. */
  datatype PermissionRef = PermissionRef(id: Option<Id>, name: Option<string>)

  /** The request body: `permissions` is null when the field is absent. */
  datatype RoleRequest = RoleRequest(name: string, description: Option<string>, permissions: Option<seq<PermissionRef>>)

  datatype PermissionView = PermissionView(id: Id, name: string, description: Option<string>)

  datatype RoleView = RoleView(id: Id, name: string, description: Option<string>, permissions: set<PermissionView>)

  datatype RoleError =
    | NameExists      // "Role with name <name> already exists"
    | NameNotUnique   // the repository's non-unique-result failure on `findByName`
    | RoleNotFound    // "Role not found"

  /** The permissions the references name by id; a reference without an id,
      or with an id that is not stored, contributes nothing. */
  function ResolvePermissions(permissions: map<Id, Permission>, refs: seq<PermissionRef>): (ids: set<Id>)
    ensures forall p :: p in ids <==> p in permissions && exists i :: 0 <= i < |refs| && refs[i].id == Some(p)
  {
    set i, p | 0 <= i < |refs| && refs[i].id == Some(p) && p in permissions :: p
  }

  /** `createRole`: a fresh role with the requested name and description;
      null permissions give a role with none. */
  function CreateRole(dir: Directory, req: RoleRequest, newId: Id): (r: Result<(Id, Directory), RoleError>)
    requires newId !in dir.roles
    ensures r.Ok? <==> RoleByName(dir.roles, req.name).Missing?
    ensures RoleByName(dir.roles, req.name).Single? ==> r == Err(NameExists)
    ensures r.Ok? ==> var (id, dir2) := r.value;
              && id == newId && dir2.roles.Keys == dir.roles.Keys + {id}
              && dir2.roles[id].name == req.name && dir2.roles[id].description == req.description
              && dir2.roles[id].permissions <= dir.permissions.Keys
              && (forall other :: other in dir.roles ==> dir2.roles[other] == dir.roles[other])
              && dir2.users == dir.users && dir2.permissions == dir.permissions
  {
    match RoleByName(dir.roles, req.name)
    case Single(_) => Err(NameExists)
    case Ambiguous => Err(NameNotUnique)
    case Missing =>
      var perms := if req.permissions.Some? then ResolvePermissions(dir.permissions, req.permissions.value) else {};
      Ok((newId, dir.(roles := dir.roles[newId := Role(req.name, req.description, perms)])))
  }

  /** `updateRole`: name and description are overwritten (no uniqueness
      check); permissions only when the request carries a list. */
  function UpdateRole(dir: Directory, id: Id, req: RoleRequest): (r: Result<Directory, RoleError>)
    ensures r.Err? <==> id !in dir.roles
    ensures r.Ok? ==> var dir2 := r.value;
              && dir2.roles.Keys == dir.roles.Keys
              && dir2.roles[id].name == req.name && dir2.roles[id].description == req.description
              && (req.permissions.None? ==> dir2.roles[id].permissions == dir.roles[id].permissions)
              && (req.permissions.Some? ==>
                    forall p :: p in dir2.roles[id].permissions <==>
                      p in dir.permissions && exists i :: 0 <= i < |req.permissions.value| && req.permissions.value[i].id == Some(p))
              && (forall other :: other in dir.roles && other != id ==> dir2.roles[other] == dir.roles[other])
              && dir2.users == dir.users && dir2.permissions == dir.permissions
  {
    if id !in dir.roles then Err(RoleNotFound)
    else
      var role := dir.roles[id];
      var perms := if req.permissions.Some? then ResolvePermissions(dir.permissions, req.permissions.value) else role.permissions;
      Ok(dir.(roles := dir.roles[id := Role(req.name, req.description, perms)]))
  }

  /** `deleteRole`: exactly that role goes. */
  function DeleteRole(dir: Directory, id: Id): (r: Result<Directory, RoleError>)
    ensures r.Err? <==> id !in dir.roles
    ensures r.Ok? ==> r.value.roles.Keys == dir.roles.Keys - {id}
                      && (forall other :: other in r.value.roles ==> r.value.roles[other] == dir.roles[other])
                      && r.value.users == dir.users && r.value.permissions == dir.permissions
  {
    if id !in dir.roles then Err(RoleNotFound) else Ok(dir.(roles := dir.roles - {id}))
  }

  /** Deleting a role just created gives back the directory it was created in. */
  lemma DeleteUndoesCreate(dir: Directory, req: RoleRequest, newId: Id)
    requires newId !in dir.roles
    requires CreateRole(dir, req, newId).Ok?
    ensures DeleteRole(CreateRole(dir, req, newId).value.1, newId) == Ok(dir)
  {
    var d := CreateRole(dir, req, newId).value.1;
    assert d.roles - {newId} == dir.roles;
  }

  /** Users keep a deleted role's id, but it grants nothing any more: their
      role names are those of their other stored roles. */
  lemma DeleteDropsRoleNames(dir: Directory, id: Id, u: User)
    requires DeleteRole(dir, id).Ok?
    ensures RoleNames(DeleteRole(dir, id).value, u) == set r | r in u.roles && r in dir.roles && r != id :: dir.roles[r].name
  {
  }

  /** `toDTO`: the role's fields and one view per stored permission it holds. */
  function ToView(dir: Directory, id: Id): (v: RoleView)
    requires id in dir.roles
    ensures v.id == id && v.name == dir.roles[id].name && v.description == dir.roles[id].description
    ensures forall pv :: pv in v.permissions <==>
              pv.id in dir.roles[id].permissions && pv.id in dir.permissions
              && pv.name == dir.permissions[pv.id].name && pv.description == dir.permissions[pv.id].description
  {
    var role := dir.roles[id];
    RoleView(id, role.name, role.description,
             set p | p in role.permissions && p in dir.permissions
               :: PermissionView(p, dir.permissions[p].name, dir.permissions[p].description))
  }

  /** The permission ids of the response to a create are exactly the
      submitted ids that name a stored permission. */
  lemma CreatedViewPermissions(dir: Directory, req: RoleRequest, newId: Id)
    requires newId !in dir.roles
    requires CreateRole(dir, req, newId).Ok?
    ensures var dir2 := CreateRole(dir, req, newId).value.1;
            (set pv | pv in ToView(dir2, newId).permissions :: pv.id) ==
              (if req.permissions.None? then {}
               else set p | p in dir.permissions && exists i :: 0 <= i < |req.permissions.value| && req.permissions.value[i].id == Some(p))
  {
    var dir2 := CreateRole(dir, req, newId).value.1;
    var v := ToView(dir2, newId);
    forall p | p in dir2.roles[newId].permissions
      ensures p in (set pv | pv in v.permissions :: pv.id)
    {
      assert PermissionView(p, dir.permissions[p].name, dir.permissions[p].description) in v.permissions;
    }
  }

  /** Updating a role under its own request is the identity on its name,
      description and permissions when every held permission is resubmitted by id. */
  lemma UpdateWithOwnPermissions(dir: Directory, id: Id, ids: seq<Id>)
    requires id in dir.roles && dir.roles[id].permissions <= dir.permissions.Keys
    requires forall p :: p in dir.roles[id].permissions <==> p in ids
    ensures var req := RoleRequest(dir.roles[id].name, dir.roles[id].description,
                                   Some(seq(|ids|, i requires 0 <= i < |ids| => PermissionRef(Some(ids[i]), None))));
            UpdateRole(dir, id, req) == Ok(dir)
  {
    var refs := seq(|ids|, i requires 0 <= i < |ids| => PermissionRef(Some(ids[i]), None));
    var req := RoleRequest(dir.roles[id].name, dir.roles[id].description, Some(refs));
    var dir2 := UpdateRole(dir, id, req).value;
    forall p ensures p in dir2.roles[id].permissions <==> p in dir.roles[id].permissions {
      if p in dir.roles[id].permissions {
        var i :| 0 <= i < |ids| && ids[i] == p;
        assert refs[i].id == Some(p);
      }
    }
    assert dir2.roles[id] == dir.roles[id];
    assert dir2.roles == dir.roles;
  }
}
