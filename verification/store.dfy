/** The persistent state the services share: the tables as sequences of rows
    (each row carrying its own id), the loaded menu tree, the lookups the
    repositories offer, and the eager "with roles and permissions" load. */
module Store {
  import opened Seqs
  import opened AdminUsers
  import opened Roles
  import opened Permissions
  import opened RefreshTokens
  import opened Menus

  datatype Db = Db(
    users: seq<AdminUser>,
    roles: seq<Role>,
    permissions: seq<Permission>,
    refreshTokens: seq<RefreshToken>,
    menuTree: seq<Menu>)

  /** A role together with its permissions, as the eager load fetches it. */
  datatype RoleGrant = RoleGrant(role: Role, permissions: seq<Permission>)

  /** The id the identity column hands out next: one above every id in use. */
  function FreshId(ids: seq<nat>): (r: nat)
    ensures forall i :: 0 <= i < |ids| ==> ids[i] < r
  {
    if |ids| == 0 then 1
    else
      var rest := FreshId(ids[1..]);
      if ids[0] < rest then rest else ids[0] + 1
  }

  function UserIds(users: seq<AdminUser>): (r: seq<nat>)
    ensures |r| == |users| && forall i :: 0 <= i < |users| ==> r[i] == users[i].id
  {
    seq(|users|, i requires 0 <= i < |users| => users[i].id)
  }

  function RoleIds(roles: seq<Role>): (r: seq<nat>)
    ensures |r| == |roles| && forall i :: 0 <= i < |roles| ==> r[i] == roles[i].id
  {
    seq(|roles|, i requires 0 <= i < |roles| => roles[i].id)
  }

  function PermissionIds(perms: seq<Permission>): (r: seq<nat>)
    ensures |r| == |perms| && forall i :: 0 <= i < |perms| ==> r[i] == perms[i].id
  {
    seq(|perms|, i requires 0 <= i < |perms| => perms[i].id)
  }

  function MenuIds(rows: seq<MenuRow>): (r: seq<nat>)
    ensures |r| == |rows| && forall i :: 0 <= i < |rows| ==> r[i] == rows[i].id
  {
    seq(|rows|, i requires 0 <= i < |rows| => rows[i].id)
  }

  /** `findById` on the user table. */
  function FindUserById(users: seq<AdminUser>, id: nat): (r: Option<nat>)
    ensures r.Some? ==> r.value < |users| && users[r.value].id == id
    ensures r.None? <==> forall u :: u in users ==> u.id != id
    ensures r.Some? ==> forall j :: 0 <= j < r.value ==> users[j].id != id
  {
    IndexWhere(users, (u: AdminUser) => u.id == id)
  }

  /** `findByEmail`: exact, case-sensitive match on the stored email. */
  function FindUserByEmail(users: seq<AdminUser>, email: string): (r: Option<nat>)
    ensures r.Some? ==> r.value < |users| && users[r.value].email == email
    ensures r.None? <==> forall u :: u in users ==> u.email != email
    ensures r.Some? ==> forall j :: 0 <= j < r.value ==> users[j].email != email
  {
    IndexWhere(users, (u: AdminUser) => u.email == email)
  }

  function FindRoleById(roles: seq<Role>, id: nat): (r: Option<nat>)
    ensures r.Some? ==> r.value < |roles| && roles[r.value].id == id
    ensures r.None? <==> forall x :: x in roles ==> x.id != id
    ensures r.Some? ==> forall j :: 0 <= j < r.value ==> roles[j].id != id
  {
    IndexWhere(roles, (x: Role) => x.id == id)
  }

  function FindRoleByCode(roles: seq<Role>, code: string): (r: Option<nat>)
    ensures r.Some? ==> r.value < |roles| && roles[r.value].code == code
    ensures r.None? <==> forall x :: x in roles ==> x.code != code
  {
    IndexWhere(roles, (x: Role) => x.code == code)
  }

  function FindPermissionById(perms: seq<Permission>, id: nat): (r: Option<nat>)
    ensures r.Some? ==> r.value < |perms| && perms[r.value].id == id
    ensures r.None? <==> forall p :: p in perms ==> p.id != id
  {
    IndexWhere(perms, (p: Permission) => p.id == id)
  }

  function FindPermissionByKey(perms: seq<Permission>, resource: string, action: string): (r: Option<nat>)
    ensures r.Some? ==> r.value < |perms| && perms[r.value].resource == resource && perms[r.value].action == action
    ensures r.None? <==> forall p :: p in perms ==> !(p.resource == resource && p.action == action)
  {
    IndexWhere(perms, (p: Permission) => p.resource == resource && p.action == action)
  }

  /** Resolve permission ids to rows, skipping ids with no row. */
  function ResolvePermissions(perms: seq<Permission>, ids: seq<nat>): (r: seq<Permission>)
    ensures |r| <= |ids|
    ensures forall p :: p in r ==> p in perms && p.id in ids
  {
    if |ids| == 0 then []
    else
      (match FindPermissionById(perms, ids[0])
       case Some(k) => [perms[k]]
       case None => [])
      + ResolvePermissions(perms, ids[1..])
  }

  /** Resolve role ids to roles loaded with their permissions. */
  function ResolveRoles(db: Db, ids: seq<nat>): (r: seq<RoleGrant>)
    ensures |r| <= |ids|
    ensures forall g :: g in r ==> g.role in db.roles && g.role.id in ids
    ensures forall g :: g in r ==> g.permissions == ResolvePermissions(db.permissions, g.role.permissions)
  {
    if |ids| == 0 then []
    else
      (match FindRoleById(db.roles, ids[0])
       case Some(k) => [RoleGrant(db.roles[k], ResolvePermissions(db.permissions, db.roles[k].permissions))]
       case None => [])
      + ResolveRoles(db, ids[1..])
  }

  /** `findBy...WithRolesAndPermissions`: the user's roles with their
      permissions. */
  function LoadRoles(db: Db, u: AdminUser): seq<RoleGrant> {
    ResolveRoles(db, u.roles)
  }

  /** Ids are unique in every table, emails among users, codes among roles. */
  predicate UniqueUserIds(users: seq<AdminUser>) {
    forall i, j :: 0 <= i < j < |users| ==> users[i].id != users[j].id
  }

  predicate UniqueEmails(users: seq<AdminUser>) {
    forall i, j :: 0 <= i < j < |users| ==> users[i].email != users[j].email
  }

  predicate UniqueRoleIds(roles: seq<Role>) {
    forall i, j :: 0 <= i < j < |roles| ==> roles[i].id != roles[j].id
  }

  predicate UniqueRoleCodes(roles: seq<Role>) {
    forall i, j :: 0 <= i < j < |roles| ==> roles[i].code != roles[j].code
  }

  predicate UniquePermissionIds(perms: seq<Permission>) {
    forall i, j :: 0 <= i < j < |perms| ==> perms[i].id != perms[j].id
  }
}
