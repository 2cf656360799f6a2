/** Role administration: create, update, delete with the system-role guard,
    replacing a role's permissions, and replacing or listing a user's roles. */
module RoleService {
  import opened Seqs
  import opened Strings
  import opened Errors
  import opened AdminUsers
  import opened Roles
  import opened Permissions
  import opened Store

  const DuplicateRoleCodeMessage: string := "이미 존재하는 역할 코드입니다: "
  const RoleNotFoundMessage: string := "역할을 찾을 수 없습니다: "
  const SystemRoleMessage: string := "시스템 역할은 삭제할 수 없습니다."
  const UserNotFoundMessage: string := "사용자를 찾을 수 없습니다: "

  datatype CreateRoleRequest = CreateRoleRequest(code: string, name: string, description: Option<string>)
  datatype UpdateRoleRequest = UpdateRoleRequest(name: string, description: Option<string>, isActive: Option<bool>)

  /** A role response, with the role's permissions when they were loaded. */
  datatype RoleResponse = RoleResponse(
    id: nat,
    code: string,
    name: string,
    description: Option<string>,
    isActive: bool,
    isSystem: bool,
    permissions: seq<Permission>)

  function ToResponse(r: Role): RoleResponse {
    RoleResponse(r.id, r.code, r.name, r.description, r.isActive, r.isSystem, [])
  }

  // ---------------------------------------------------------------------
  // Create, update, delete

  /** `create`: a taken code is a conflict; otherwise a new role with the
      constructor defaults is appended. */
  function Create(roles: seq<Role>, req: CreateRoleRequest): (s: Step<seq<Role>, RoleResponse>)
    ensures s.result.Err? ==> s.state == roles
    ensures s.result.Ok? ==> |s.state| == |roles| + 1 && s.state[..|roles|] == roles
  {
    if FindRoleByCode(roles, req.code).Some? then
      Step(roles, Err(DuplicateException(DuplicateRoleCodeMessage + req.code)))
    else
      var r := NewRole(FreshId(RoleIds(roles)), req.code, req.name, req.description);
      Step(roles + [r], Ok(ToResponse(r)))
  }

  /** The two outcomes of `create`: refused exactly when the code is taken;
      otherwise the new role is active, not a system role, has no
      permissions and a fresh id, and role codes stay unique. */
  lemma CreateOutcomes(roles: seq<Role>, req: CreateRoleRequest)
    ensures Create(roles, req).result.Err? <==> exists r :: r in roles && r.code == req.code
    ensures Create(roles, req).result.Err? ==>
      Create(roles, req).result.error == DuplicateException(DuplicateRoleCodeMessage + req.code)
    ensures Create(roles, req).result.Ok? ==>
      var r := Create(roles, req).state[|roles|];
      && r.code == req.code && r.name == req.name && r.description == req.description
      && r.isActive && !r.isSystem && r.permissions == []
      && (forall q :: q in roles ==> q.id != r.id)
    ensures UniqueRoleCodes(roles) ==> UniqueRoleCodes(Create(roles, req).state)
  {
    var ids := RoleIds(roles);
    forall x | x in roles
      ensures x.id < FreshId(ids)
    {
      var i :| 0 <= i < |roles| && roles[i] == x;
      assert ids[i] == x.id;
    }
  }

  /** `update`: the name is always replaced; description and the active flag
      only when provided. */
  function Update(roles: seq<Role>, id: nat, req: UpdateRoleRequest): (s: Step<seq<Role>, RoleResponse>)
    ensures s.result.Err? <==> forall r :: r in roles ==> r.id != id
    ensures s.result.Err? ==> s.state == roles && s.result.error == ResourceNotFoundException(RoleNotFoundMessage + NatToString(id))
    ensures |s.state| == |roles|
  {
    match FindRoleById(roles, id)
    case None => Step(roles, Err(ResourceNotFoundException(RoleNotFoundMessage + NatToString(id))))
    case Some(k) =>
      var r := roles[k];
      var updated := r.(
        name := req.name,
        description := if req.description.Some? then req.description else r.description,
        isActive := if req.isActive.Some? then req.isActive.value else r.isActive);
      Step(roles[k := updated], Ok(ToResponse(updated)))
  }

  /** The field rules of `update`: code, system flag and permissions are
      never touched, the name is replaced, and description and active flag
      change only when the request carries them. */
  predicate UpdatedPerRequest(before: Role, after: Role, req: UpdateRoleRequest) {
    && after.id == before.id && after.code == before.code && after.isSystem == before.isSystem
    && after.permissions == before.permissions && after.name == req.name
    && after.description == (if req.description.Some? then req.description else before.description)
    && after.isActive == (if req.isActive.Some? then req.isActive.value else before.isActive)
  }

  lemma UpdateFieldRules(roles: seq<Role>, id: nat, req: UpdateRoleRequest)
    requires Update(roles, id, req).result.Ok?
    ensures var s := Update(roles, id, req);
      exists k :: 0 <= k < |roles| && roles[k].id == id && UpdatedPerRequest(roles[k], s.state[k], req)
        && (forall j :: 0 <= j < |roles| && j != k ==> s.state[j] == roles[j])
  {
    var k := FindRoleById(roles, id).value;
    assert roles[k].id == id;
  }

  /** Repeating an update changes nothing more. */
  lemma UpdateIsIdempotent(roles: seq<Role>, id: nat, req: UpdateRoleRequest)
    ensures Update(Update(roles, id, req).state, id, req).state == Update(roles, id, req).state
  {
    match FindRoleById(roles, id)
    case None =>
    case Some(k) =>
      var s := Update(roles, id, req).state;
      assert s[k].id == id;
      assert forall j :: 0 <= j < k ==> s[j] == roles[j];
  }

  /** `delete`: a missing role is not found; a system role is forbidden;
      otherwise the role's row is removed. */
  function Delete(roles: seq<Role>, id: nat): (s: Step<seq<Role>, ()>)
    ensures s.result.Err? ==> s.state == roles
    ensures s.result.Ok? ==> |s.state| == |roles| - 1
  {
    match FindRoleById(roles, id)
    case None => Step(roles, Err(ResourceNotFoundException(RoleNotFoundMessage + NatToString(id))))
    case Some(k) =>
      if roles[k].isSystem then Step(roles, Err(ForbiddenException(SystemRoleMessage)))
      else Step(RemoveAt(roles, k), Ok(()))
  }

  /** The outcomes of `delete`: missing is not found, a system role is
      refused and stays; any other role disappears, and every other role is
      kept. */
  lemma DeleteOutcomes(roles: seq<Role>, id: nat)
    requires UniqueRoleIds(roles)
    ensures (forall r :: r in roles ==> r.id != id) ==>
      Delete(roles, id).result == Err(ResourceNotFoundException(RoleNotFoundMessage + NatToString(id)))
    ensures forall r :: r in roles && r.id == id && r.isSystem ==>
      Delete(roles, id).result == Err(ForbiddenException(SystemRoleMessage)) && r in Delete(roles, id).state
    ensures forall r :: r in roles && r.id == id && !r.isSystem ==>
      Delete(roles, id).result.Ok? && r !in Delete(roles, id).state
    ensures forall r :: r in roles && r.id != id ==> r in Delete(roles, id).state
  {
    match FindRoleById(roles, id)
    case None =>
    case Some(k) =>
      var s := Delete(roles, id).state;
      forall r | r in roles && r.id == id
        ensures r == roles[k]
      {
        var i :| 0 <= i < |roles| && roles[i] == r;
        assert i == k;
      }
      forall r | r in roles && r.id != id
        ensures r in s
      {
        var i :| 0 <= i < |roles| && roles[i] == r;
        if !roles[k].isSystem {
          if i < k {
            assert s[i] == r;
          } else {
            assert i != k;
            assert s[i - 1] == r;
          }
        }
      }
      if !roles[k].isSystem {
        forall j | 0 <= j < |s|
          ensures s[j] != roles[k]
        {
          if j < k {
            assert s[j] == roles[j];
          } else {
            assert s[j] == roles[j + 1];
          }
        }
      }
  }

  // ---------------------------------------------------------------------
  // Replace semantics

  /** The ids of the stored rows whose id is requested, each once, in table
      order: what `findAllByIdIn` / `findAllById` return, as ids. */
  function FoundIds(tableIds: seq<nat>, requested: seq<nat>): (r: seq<nat>)
    ensures Distinct(r)
    ensures forall x :: x in r <==> x in tableIds && x in requested
  {
    Dedup(Filter(tableIds, (x: nat) => x in requested))
  }

  /** `assignPermissions`: the role's permission set is cleared and refilled
      with the stored permissions among the requested ids. */
  function AssignPermissions(db: Db, roleId: nat, permissionIds: seq<nat>): (s: Step<Db, RoleResponse>)
    ensures s.result.Err? <==> forall r :: r in db.roles ==> r.id != roleId
    ensures s.result.Err? ==> s.state == db && s.result.error == ResourceNotFoundException(RoleNotFoundMessage + NatToString(roleId))
    ensures s.state.users == db.users && s.state.permissions == db.permissions
    ensures s.state.refreshTokens == db.refreshTokens && s.state.menuTree == db.menuTree
    ensures |s.state.roles| == |db.roles|
  {
    match FindRoleById(db.roles, roleId)
    case None => Step(db, Err(ResourceNotFoundException(RoleNotFoundMessage + NatToString(roleId))))
    case Some(k) =>
      var r := db.roles[k].(permissions := FoundIds(PermissionIds(db.permissions), permissionIds));
      Step(db.(roles := db.roles[k := r]),
        Ok(ToResponse(r).(permissions := ResolvePermissions(db.permissions, r.permissions))))
  }

  /** After `assignPermissions` the role holds exactly the requested ids that
      name a stored permission, each once: unknown ids are ignored and the
      previous permissions are gone; nothing else about the role changes. */
  lemma AssignPermissionsReplaces(db: Db, roleId: nat, permissionIds: seq<nat>)
    requires AssignPermissions(db, roleId, permissionIds).result.Ok?
    ensures var s := AssignPermissions(db, roleId, permissionIds);
      exists k :: 0 <= k < |db.roles| && db.roles[k].id == roleId
        && s.state.roles == db.roles[k := s.state.roles[k]]
        && s.state.roles[k] == db.roles[k].(permissions := s.state.roles[k].permissions)
        && Distinct(s.state.roles[k].permissions)
        && (forall x :: x in s.state.roles[k].permissions <==>
             x in permissionIds && exists p :: p in db.permissions && p.id == x)
  {
    var k := FindRoleById(db.roles, roleId).value;
    var ids := PermissionIds(db.permissions);
    forall x
      ensures x in ids <==> exists p :: p in db.permissions && p.id == x
    {
      if x in ids {
        var i :| 0 <= i < |ids| && ids[i] == x;
        assert db.permissions[i] in db.permissions;
      }
      if exists p :: p in db.permissions && p.id == x {
        var p :| p in db.permissions && p.id == x;
        var i :| 0 <= i < |db.permissions| && db.permissions[i] == p;
        assert ids[i] == x;
      }
    }
    assert db.roles[k].id == roleId;
  }

  /** Assigning the same ids twice gives the same tables as assigning once. */
  lemma AssignPermissionsIsIdempotent(db: Db, roleId: nat, permissionIds: seq<nat>)
    ensures var once := AssignPermissions(db, roleId, permissionIds).state;
      AssignPermissions(once, roleId, permissionIds).state == once
  {
    match FindRoleById(db.roles, roleId)
    case None =>
    case Some(k) =>
      var once := AssignPermissions(db, roleId, permissionIds).state;
      assert once.roles[k].id == roleId;
      assert forall j :: 0 <= j < k ==> once.roles[j] == db.roles[j];
      assert once.roles[k := once.roles[k]] == once.roles;
  }

  /** `getUserRoles`: one summary per role of the user. */
  function GetUserRoles(db: Db, userId: nat): (r: Result<seq<RoleSummary>>)
    ensures r.Err? <==> forall u :: u in db.users ==> u.id != userId
    ensures r.Err? ==> r.error == ResourceNotFoundException(UserNotFoundMessage + NatToString(userId))
  {
    match FindUserById(db.users, userId)
    case None => Err(ResourceNotFoundException(UserNotFoundMessage + NatToString(userId)))
    case Some(k) =>
      var grants := LoadRoles(db, db.users[k]);
      Ok(seq(|grants|, i requires 0 <= i < |grants| => Summary(grants[i].role)))
  }

  /** `assignUserRoles`: the user's role set is cleared and refilled with the
      stored roles among the requested ids. */
  function AssignUserRoles(db: Db, userId: nat, roleIds: seq<nat>): (s: Step<Db, ()>)
    ensures s.result.Err? <==> forall u :: u in db.users ==> u.id != userId
    ensures s.result.Err? ==> s.state == db && s.result.error == ResourceNotFoundException(UserNotFoundMessage + NatToString(userId))
    ensures s.state.roles == db.roles && s.state.permissions == db.permissions
    ensures s.state.refreshTokens == db.refreshTokens && s.state.menuTree == db.menuTree
    ensures |s.state.users| == |db.users|
  {
    match FindUserById(db.users, userId)
    case None => Step(db, Err(ResourceNotFoundException(UserNotFoundMessage + NatToString(userId))))
    case Some(k) =>
      var u := db.users[k].(roles := FoundIds(RoleIds(db.roles), roleIds));
      Step(db.(users := db.users[k := u]), Ok(()))
  }

  /** Assigning the same roles twice gives the same tables as assigning once. */
  lemma AssignUserRolesIsIdempotent(db: Db, userId: nat, roleIds: seq<nat>)
    ensures var once := AssignUserRoles(db, userId, roleIds).state;
      AssignUserRoles(once, userId, roleIds).state == once
  {
    match FindUserById(db.users, userId)
    case None =>
    case Some(k) =>
      var once := AssignUserRoles(db, userId, roleIds).state;
      assert once.users[k].id == userId;
      assert forall j :: 0 <= j < k ==> once.users[j] == db.users[j];
      assert once.users[k := once.users[k]] == once.users;
  }

  /** Every id of a table is the id of one of its rows, and back. */
  lemma RoleIdsAreIds(roles: seq<Role>, x: nat)
    ensures x in RoleIds(roles) <==> exists r :: r in roles && r.id == x
  {
    var ids := RoleIds(roles);
    if x in ids {
      var i :| 0 <= i < |ids| && ids[i] == x;
      assert roles[i] in roles;
    }
    if exists r :: r in roles && r.id == x {
      var r :| r in roles && r.id == x;
      var i :| 0 <= i < |roles| && roles[i] == r;
      assert ids[i] == x;
    }
  }

  /** Resolving duplicate-free ids of rows that all exist, in a table with
      unique ids, finds every one of them in order. */
  lemma {:induction false} ResolveAllRoles(db: Db, ids: seq<nat>)
    requires forall x :: x in ids ==> exists r :: r in db.roles && r.id == x
    ensures |ResolveRoles(db, ids)| == |ids|
    ensures forall i :: 0 <= i < |ids| ==> ResolveRoles(db, ids)[i].role.id == ids[i]
  {
    if |ids| > 0 {
      var rest := ids[1..];
      assert ids[0] in ids;
      var k := FindRoleById(db.roles, ids[0]).value;
      var head := RoleGrant(db.roles[k], ResolvePermissions(db.permissions, db.roles[k].permissions));
      assert forall x :: x in rest ==> x in ids;
      ResolveAllRoles(db, rest);
      var tail := ResolveRoles(db, rest);
      assert ResolveRoles(db, ids) == [head] + tail;
      forall i | 0 <= i < |ids|
        ensures ([head] + tail)[i].role.id == ids[i]
      {
        if i > 0 {
          assert ([head] + tail)[i] == tail[i - 1] && rest[i - 1] == ids[i];
        }
      }
    }
  }

  /** When every role id of a user names a stored role, `getUserRoles`
      lists one summary per id, in the user's order. */
  lemma ListedRolesFollowUser(db: Db, userId: nat, k: nat)
    requires FindUserById(db.users, userId) == Some(k)
    requires forall x :: x in db.users[k].roles ==> exists r :: r in db.roles && r.id == x
    ensures GetUserRoles(db, userId).Ok?
    ensures |GetUserRoles(db, userId).value| == |db.users[k].roles|
    ensures forall i :: 0 <= i < |db.users[k].roles| ==> GetUserRoles(db, userId).value[i].id == db.users[k].roles[i]
  {
    ResolveAllRoles(db, db.users[k].roles);
  }

  /** `assignUserRoles` leaves the user's role ids at the stored roles among
      the requested ids, at the user's own position. */
  lemma AssignUserRolesStores(db: Db, userId: nat, roleIds: seq<nat>) returns (k: nat)
    requires AssignUserRoles(db, userId, roleIds).result.Ok?
    ensures var after := AssignUserRoles(db, userId, roleIds).state;
      && FindUserById(after.users, userId) == Some(k)
      && after.users[k].roles == FoundIds(RoleIds(db.roles), roleIds)
  {
    var after := AssignUserRoles(db, userId, roleIds).state;
    k := FindUserById(db.users, userId).value;
    assert after.users[k].id == userId;
    assert forall j :: 0 <= j < k ==> after.users[j] == db.users[j];
  }

  /** After `assignUserRoles`, `getUserRoles` lists no role twice. */
  lemma AssignUserRolesListsOnce(db: Db, userId: nat, roleIds: seq<nat>)
    requires AssignUserRoles(db, userId, roleIds).result.Ok?
    ensures var listed := GetUserRoles(AssignUserRoles(db, userId, roleIds).state, userId);
      listed.Ok? && forall i, j :: 0 <= i < j < |listed.value| ==> listed.value[i].id != listed.value[j].id
  {
    var after := AssignUserRoles(db, userId, roleIds).state;
    var ids := FoundIds(RoleIds(db.roles), roleIds);
    var k := AssignUserRolesStores(db, userId, roleIds);
    forall x | x in ids
      ensures exists r :: r in db.roles && r.id == x
    {
      RoleIdsAreIds(db.roles, x);
    }
    ListedRolesFollowUser(after, userId, k);
  }

  /** Replace semantics for users, read back through `getUserRoles`: after
      `assignUserRoles` the listed roles are exactly the requested ids that
      name a stored role. */
  lemma AssignUserRolesThenGet(db: Db, userId: nat, roleIds: seq<nat>, x: nat)
    requires AssignUserRoles(db, userId, roleIds).result.Ok?
    ensures var listed := GetUserRoles(AssignUserRoles(db, userId, roleIds).state, userId);
      listed.Ok? && ((exists i :: 0 <= i < |listed.value| && listed.value[i].id == x) <==>
        x in roleIds && exists r :: r in db.roles && r.id == x)
  {
    var after := AssignUserRoles(db, userId, roleIds).state;
    var ids := FoundIds(RoleIds(db.roles), roleIds);
    var k := AssignUserRolesStores(db, userId, roleIds);
    forall y | y in ids
      ensures exists r :: r in db.roles && r.id == y
    {
      RoleIdsAreIds(db.roles, y);
    }
    ListedRolesFollowUser(after, userId, k);
    var listed := GetUserRoles(after, userId).value;
    RoleIdsAreIds(db.roles, x);
    if x in ids {
      var i :| 0 <= i < |ids| && ids[i] == x;
      assert listed[i].id == x;
    }
  }
}
