/** The role management page's form: the selected permission ids, how a
    checkbox toggles them, how Add and Edit preset the form, and the body
    it submits to the role service.

    The page's role calls (`getRoles`, `getPermissions`, `createRole`,
    `updateRole`, `deleteRole` of the user service client) all go through
    an `api` object that the client module never declares. Each call
    therefore throws a ReferenceError before any request leaves, and the
    page's `catch` runs. The `...AsWritten` members model that; the other
    members model the page with the client calling the server, which is
    what the page's handlers are written for. */
module RoleManagement {
  import opened Wrappers
  import opened Identity
  import RoleService

  /** A role as the page receives it; `permissions` may be null. */
  datatype PermissionRow = PermissionRow(id: Id, name: string)
  datatype RoleRow = RoleRow(id: Id, name: string, description: Option<string>, permissions: Option<seq<PermissionRow>>)

  /** The modal's fields. */
  datatype RoleForm = RoleForm(editing: Option<Id>, name: string, description: string, selected: seq<Id>)

  predicate Distinct(s: seq<Id>) {
    forall i, j :: 0 <= i < j < |s| ==> s[i] != s[j]
  }

  /** Every occurrence of `x` taken out, the rest in order. */
  function Without(s: seq<Id>, x: Id): (r: seq<Id>)
    ensures |r| <= |s|
    ensures forall y :: y in r <==> y in s && y != x
  {
    if |s| == 0 then []
    else (if s[0] != x then [s[0]] else []) + Without(s[1..], x)
  }

  /** `handlePermissionToggle`: a selected id is dropped, another is appended. */
  function Toggle(selected: seq<Id>, permId: Id): (r: seq<Id>)
    ensures forall y :: y in r <==> (y in selected <==> y != permId)
    ensures permId !in selected ==> |r| == |selected| + 1 && r[..|selected|] == selected && r[|selected|] == permId
    ensures permId in selected ==> |r| < |selected|
  {
    if permId in selected then
      var r := Without(selected, permId);
      assert |r| < |selected| by { WithoutShrinks(selected, permId); }
      r
    else selected + [permId]
  }

  lemma {:induction false} WithoutShrinks(s: seq<Id>, x: Id)
    requires x in s
    ensures |Without(s, x)| < |s|
  {
    if s[0] != x {
      WithoutShrinks(s[1..], x);
    } else {
      assert |Without(s[1..], x)| <= |s[1..]|;
    }
  }

  lemma {:induction false} WithoutDistinct(s: seq<Id>, x: Id)
    requires Distinct(s)
    ensures Distinct(Without(s, x))
  {
    if |s| > 0 {
      WithoutDistinct(s[1..], x);
      assert forall i, j :: 0 <= i < j < |s[1..]| ==> s[1..][i] != s[1..][j];
      if s[0] != x {
        var r := [s[0]] + Without(s[1..], x);
        assert s[0] !in s[1..];
        forall i, j | 0 <= i < j < |r| ensures r[i] != r[j] {
          if i == 0 { assert r[j] in Without(s[1..], x); }
          else { assert r[i] == Without(s[1..], x)[i - 1] && r[j] == Without(s[1..], x)[j - 1]; }
        }
      }
    }
  }

  /** A duplicate-free selection stays duplicate-free. */
  lemma ToggleKeepsDistinct(selected: seq<Id>, permId: Id)
    requires Distinct(selected)
    ensures Distinct(Toggle(selected, permId))
  {
    if permId in selected {
      WithoutDistinct(selected, permId);
    } else {
      var r := selected + [permId];
      forall i, j | 0 <= i < j < |r| ensures r[i] != r[j] {
        if j == |selected| { assert r[i] in selected; }
      }
    }
  }

  /** Ticking a box twice selects the same permissions (the order may change). */
  lemma ToggleTwice(selected: seq<Id>, permId: Id)
    ensures forall y :: y in Toggle(Toggle(selected, permId), permId) <==> y in selected
  {
  }

  /** Ticking an unticked box and unticking it restores the exact list. */
  lemma {:induction false} ToggleTwiceAbsent(selected: seq<Id>, permId: Id)
    requires permId !in selected
    ensures Toggle(Toggle(selected, permId), permId) == selected
  {
    WithoutAppended(selected, permId);
  }

  lemma {:induction false} WithoutAppended(s: seq<Id>, x: Id)
    requires x !in s
    ensures Without(s + [x], x) == s
  {
    if |s| > 0 {
      assert (s + [x])[1..] == s[1..] + [x];
      WithoutAppended(s[1..], x);
    } else {
      assert Without([x][1..], x) == [];
    }
  }

  /** `handleAddClick`: an empty form. */
  function AddForm(): (f: RoleForm)
    ensures f.editing.None? && f.selected == [] && f.name == "" && f.description == ""
  {
    RoleForm(None, "", "", [])
  }

  /** `handleEditClick`: the role's fields, a null description as "", and its permission ids in order. */
  function EditForm(role: RoleRow): (f: RoleForm)
    ensures f.editing == Some(role.id) && f.name == role.name && f.description == role.description.GetOr("")
    ensures role.permissions.None? ==> f.selected == []
    ensures role.permissions.Some? ==> |f.selected| == |role.permissions.value|
    ensures role.permissions.Some? ==> forall i :: 0 <= i < |f.selected| ==> f.selected[i] == role.permissions.value[i].id
  {
    var ids := match role.permissions
      case None => []
      case Some(ps) => seq(|ps|, i requires 0 <= i < |ps| => ps[i].id);
    RoleForm(Some(role.id), role.name, role.description.GetOr(""), ids)
  }

  /** `handleSubmit`: the request body, each selected id as a reference
      carrying only its id, in order. */
  function Payload(f: RoleForm): (req: RoleService.RoleRequest)
    ensures req.name == f.name && req.description == Some(f.description) && req.permissions.Some?
    ensures |req.permissions.value| == |f.selected|
    ensures forall i :: 0 <= i < |f.selected| ==> req.permissions.value[i] == RoleService.PermissionRef(Some(f.selected[i]), None)
  {
    RoleService.RoleRequest(f.name, Some(f.description),
                            Some(seq(|f.selected|, i requires 0 <= i < |f.selected| => RoleService.PermissionRef(Some(f.selected[i]), None))))
  }

  /** The call `handleSubmit` makes. */
  datatype RoleCall = CreateCall(req: RoleService.RoleRequest) | UpdateCall(id: Id, req: RoleService.RoleRequest)

  /** `handleSubmit`: an update of the role being edited, else a create,
      with the form's body; the modal closes only when the call succeeds. */
  function Submit(f: RoleForm, ok: bool): (r: (RoleCall, bool))
    ensures r.0.UpdateCall? <==> f.editing.Some?
    ensures r.0.UpdateCall? ==> r.0.id == f.editing.value
    ensures r.0.req == Payload(f)
    ensures r.1 <==> !ok
  {
    (if f.editing.Some? then UpdateCall(f.editing.value, Payload(f)) else CreateCall(Payload(f)), !ok)
  }

  /** `handleDeleteClick`: the delete call is made only when confirmed. */
  function DeleteClick(id: Id, confirmed: bool): (call: Option<Id>)
    ensures call.Some? <==> confirmed
    ensures call.Some? ==> call.value == id
  {
    if confirmed then Some(id) else None
  }

  /** A role added with permissions ticked one by one, from the empty form,
      is created with exactly the ticked permissions that exist. */
  lemma AddedRoleHasTicked(dir: Directory, name: string, description: string, ticked: seq<Id>, newId: Id)
    requires newId !in dir.roles
    requires RoleService.CreateRole(dir, Payload(AddForm().(name := name, description := description, selected := ticked)), newId).Ok?
    ensures var dir2 := RoleService.CreateRole(dir, Payload(AddForm().(name := name, description := description, selected := ticked)), newId).value.1;
            forall p :: p in dir2.roles[newId].permissions <==> p in dir.permissions && p in ticked
  {
    var req := Payload(AddForm().(name := name, description := description, selected := ticked));
    var dir2 := RoleService.CreateRole(dir, req, newId).value.1;
    forall p ensures p in dir2.roles[newId].permissions <==> p in dir.permissions && p in ticked {
      if p in dir.permissions && p in ticked {
        var i :| 0 <= i < |ticked| && ticked[i] == p;
        assert req.permissions.value[i].id == Some(p);
      }
    }
  }

  /** Opening a stored role for editing and saving it untouched changes
      nothing, provided the role has a description and the page lists
      exactly its permissions. */
  lemma EditSaveUnchanged(dir: Directory, role: RoleRow)
    requires role.id in dir.roles && dir.roles[role.id].permissions <= dir.permissions.Keys
    requires role.name == dir.roles[role.id].name && role.description == dir.roles[role.id].description
    requires role.description.Some? && role.permissions.Some?
    requires forall p :: p in dir.roles[role.id].permissions <==>
               exists i :: 0 <= i < |role.permissions.value| && role.permissions.value[i].id == p
    ensures RoleService.UpdateRole(dir, role.id, Payload(EditForm(role))) == Ok(dir)
  {
    var ids := EditForm(role).selected;
    forall p ensures p in dir.roles[role.id].permissions <==> p in ids {
      if p in dir.roles[role.id].permissions {
        var i :| 0 <= i < |role.permissions.value| && role.permissions.value[i].id == p;
        assert ids[i] == p;
      }
    }
    RoleService.UpdateWithOwnPermissions(dir, role.id, ids);
    assert Payload(EditForm(role)).permissions.value
           == seq(|ids|, i requires 0 <= i < |ids| => RoleService.PermissionRef(Some(ids[i]), None));
  }

  /** A role stored without a description comes back from an untouched
      edit with an empty one. */
  lemma EditSaveFillsDescription(dir: Directory, role: RoleRow)
    requires role.id in dir.roles && role.description.None?
    ensures RoleService.UpdateRole(dir, role.id, Payload(EditForm(role))).value.roles[role.id].description == Some("")
  {
  }

  // ---- the page with its client as written --------------------------------

  /** One answer of the role client: `{ success, data }`. */
  datatype Response<T> = Response(success: bool, data: seq<T>)

  /** `fetchData`, given each call's answer, `None` for a call that throws.
      `Promise.all` rejects when either call throws, and then both lists
      stay; otherwise each list is replaced when its answer reports success. */
  function Fetch(roles: seq<RoleRow>, permissions: seq<PermissionRow>,
                 rolesRes: Option<Response<RoleRow>>, permsRes: Option<Response<PermissionRow>>)
    : (r: (seq<RoleRow>, seq<PermissionRow>))
    ensures rolesRes.None? || permsRes.None? ==> r == (roles, permissions)
    ensures rolesRes.Some? && permsRes.Some? ==>
              && r.0 == (if rolesRes.value.success then rolesRes.value.data else roles)
              && r.1 == (if permsRes.value.success then permsRes.value.data else permissions)
  {
    if rolesRes.None? || permsRes.None? then (roles, permissions)
    else
      ((if rolesRes.value.success then rolesRes.value.data else roles),
       (if permsRes.value.success then permsRes.value.data else permissions))
  }

  /** What `handleSubmit` leaves: the call that reached the server, if any,
      whether the modal is still open, and whether "Failed to save role"
      was alerted. */
  datatype SaveOutcome = SaveOutcome(sent: Option<RoleCall>, modalOpen: bool, alerted: bool)

  /** `handleSubmit` with the client as written: the call throws, nothing
      is sent, the modal stays open and the page alerts. */
  function SubmitAsWritten(f: RoleForm): (r: SaveOutcome)
    ensures r.sent.None? && r.modalOpen && r.alerted
  {
    SaveOutcome(None, true, true)
  }

  /** `handleDeleteClick` with the client as written: a confirmed delete
      throws before sending, so nothing is deleted and the page alerts
      "Failed to delete role"; an unconfirmed one does nothing. */
  function DeleteClickAsWritten(id: Id, confirmed: bool): (r: (Option<Id>, bool))
    ensures r.0.None?
    ensures r.1 <==> confirmed
  {
    (None, confirmed)
  }

  /** userService.js never declares the `api` its role and permission
      calls use, so each of `getRoles`, `getPermissions`, `createRole`,
      `updateRole` and `deleteRole` throws a ReferenceError at its first
      statement, before any request is sent. As written the page therefore
      never manages a role: it loads no role and no permission, and the
      save and the confirmed delete that the page with a working client
      sends never leave. */
  lemma AsWrittenNeverManagesRoles(f: RoleForm, id: Id, confirmed: bool, ok: bool)
    ensures Fetch([], [], None, None) == ([], [])
    ensures SubmitAsWritten(f).sent != Some(Submit(f, ok).0)
    ensures confirmed ==> DeleteClickAsWritten(id, confirmed).0 != DeleteClick(id, confirmed)
  {
  }

  /** With a working client, a successful load shows the roles and
      permissions the server lists. */
  lemma LoadShowsServerLists(roles: seq<RoleRow>, permissions: seq<PermissionRow>)
    ensures Fetch([], [], Some(Response(true, roles)), Some(Response(true, permissions))) == (roles, permissions)
  {
  }
}
