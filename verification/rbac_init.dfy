/** The start-up initializer: find-or-create the sixteen seed permissions,
    find-or-create the three system roles over them, and move accounts that
    still carry only the legacy single role onto the role with that code. */
module RbacInit {
  import opened Seqs
  import opened AdminUsers
  import opened Roles
  import opened Permissions
  import opened Store

  /** A seed definition: (resource, action, display name). */
  datatype PermissionDef = PermissionDef(resource: string, action: string, name: string)

  const SeedResources: seq<string> := ["user", "role", "permission", "menu"]
  const SeedActions: seq<string> := ["create", "read", "update", "delete"]

  /** The four definitions of one resource, in the order create, read,
      update, delete, with their display names. */
  function SeedBlock(resource: string, names: seq<string>): (b: seq<PermissionDef>)
    requires |names| == 4
    ensures |b| == 4
    ensures forall i :: 0 <= i < 4 ==> b[i] == PermissionDef(resource, SeedActions[i], names[i])
  {
    [PermissionDef(resource, "create", names[0]), PermissionDef(resource, "read", names[1]),
     PermissionDef(resource, "update", names[2]), PermissionDef(resource, "delete", names[3])]
  }

  const UserDefs: seq<PermissionDef> := SeedBlock("user", ["사용자 생성", "사용자 조회", "사용자 수정", "사용자 삭제"])
  const RoleDefs: seq<PermissionDef> := SeedBlock("role", ["역할 생성", "역할 조회", "역할 수정", "역할 삭제"])
  const PermissionDefs: seq<PermissionDef> := SeedBlock("permission", ["권한 생성", "권한 조회", "권한 수정", "권한 삭제"])
  const MenuDefs: seq<PermissionDef> := SeedBlock("menu", ["메뉴 생성", "메뉴 조회", "메뉴 수정", "메뉴 삭제"])

  /** The sixteen seed definitions, in declaration order. */
  const SeedDefs: seq<PermissionDef> := UserDefs + RoleDefs + PermissionDefs + MenuDefs

  const SuperAdminCode: string := "SUPER_ADMIN"
  const AdminCode: string := "ADMIN"
  const ViewerCode: string := "VIEWER"

  predicate DefKey(d: PermissionDef, p: Permission) {
    p.resource == d.resource && p.action == d.action
  }

  /** No two definitions share a (resource, action) pair. */
  predicate DistinctKeys(defs: seq<PermissionDef>) {
    forall i, j :: 0 <= i < j < |defs| ==> (defs[i].resource, defs[i].action) != (defs[j].resource, defs[j].action)
  }

  /** Four blocks laid end to end form a resource × action grid,
      resource-major. */
  lemma BlocksAreGrid(a: string, b: string, c: string, d: string,
                      na: seq<string>, nb: seq<string>, nc: seq<string>, nd: seq<string>)
    requires |na| == 4 && |nb| == 4 && |nc| == 4 && |nd| == 4
    ensures var s := SeedBlock(a, na) + SeedBlock(b, nb) + SeedBlock(c, nc) + SeedBlock(d, nd);
      |s| == 16 && forall i :: 0 <= i < 16 ==> s[i].resource == [a, b, c, d][i / 4] && s[i].action == SeedActions[i % 4]
  {
    var s := SeedBlock(a, na) + SeedBlock(b, nb) + SeedBlock(c, nc) + SeedBlock(d, nd);
    forall i | 0 <= i < 16
      ensures s[i].resource == [a, b, c, d][i / 4] && s[i].action == SeedActions[i % 4]
    {
      if i < 4 {
        assert s[i] == SeedBlock(a, na)[i];
      } else if i < 8 {
        assert s[i] == SeedBlock(b, nb)[i - 4];
      } else if i < 12 {
        assert s[i] == SeedBlock(c, nc)[i - 8];
      } else {
        assert s[i] == SeedBlock(d, nd)[i - 12];
      }
    }
  }

  /** Blocks for four distinct resources have distinct pairs throughout. */
  lemma BlockKeysDistinct(a: string, b: string, c: string, d: string,
                          na: seq<string>, nb: seq<string>, nc: seq<string>, nd: seq<string>)
    requires |na| == 4 && |nb| == 4 && |nc| == 4 && |nd| == 4
    requires Distinct([a, b, c, d])
    ensures DistinctKeys(SeedBlock(a, na) + SeedBlock(b, nb) + SeedBlock(c, nc) + SeedBlock(d, nd))
  {
    var s := SeedBlock(a, na) + SeedBlock(b, nb) + SeedBlock(c, nc) + SeedBlock(d, nd);
    var rs := [a, b, c, d];
    BlocksAreGrid(a, b, c, d, na, nb, nc, nd);
    assert Distinct(SeedActions);
    forall i, j | 0 <= i < j < |s|
      ensures (s[i].resource, s[i].action) != (s[j].resource, s[j].action)
    {
      if i / 4 == j / 4 {
        assert i % 4 != j % 4;
      } else {
        assert rs[i / 4] != rs[j / 4];
      }
    }
  }

  /** The seed definitions are the resource × action grid, resource-major, so
      every (resource, action) pair of the grid appears exactly once. */
  lemma SeedDefsAreTheGrid()
    ensures |SeedDefs| == 16
    ensures forall i :: 0 <= i < 16 ==> SeedDefs[i].resource == SeedResources[i / 4] && SeedDefs[i].action == SeedActions[i % 4]
    ensures DistinctKeys(SeedDefs)
  {
    BlocksAreGrid("user", "role", "permission", "menu",
      ["사용자 생성", "사용자 조회", "사용자 수정", "사용자 삭제"], ["역할 생성", "역할 조회", "역할 수정", "역할 삭제"],
      ["권한 생성", "권한 조회", "권한 수정", "권한 삭제"], ["메뉴 생성", "메뉴 조회", "메뉴 수정", "메뉴 삭제"]);
    BlockKeysDistinct("user", "role", "permission", "menu",
      ["사용자 생성", "사용자 조회", "사용자 수정", "사용자 삭제"], ["역할 생성", "역할 조회", "역할 수정", "역할 삭제"],
      ["권한 생성", "권한 조회", "권한 수정", "권한 삭제"], ["메뉴 생성", "메뉴 조회", "메뉴 수정", "메뉴 삭제"]);
  }

  // ---------------------------------------------------------------------
  // Permissions

  /** `findByResourceAndAction(...) ?: save(Permission(...))`. */
  function FindOrCreatePermission(perms: seq<Permission>, d: PermissionDef): (r: (seq<Permission>, Permission))
    ensures DefKey(d, r.1) && r.1 in r.0
    ensures (exists p :: p in perms && DefKey(d, p)) ==> r.0 == perms && r.1 in perms
    ensures (forall p :: p in perms ==> !DefKey(d, p)) ==>
      && r.0 == perms + [r.1] && r.1.name == d.name && r.1.description.None?
      && (forall q :: q in perms ==> q.id != r.1.id)
  {
    match FindPermissionByKey(perms, d.resource, d.action)
    case Some(k) => (perms, perms[k])
    case None =>
      var ids := PermissionIds(perms);
      var p := Permission(FreshId(ids), d.resource, d.action, d.name, None);
      assert forall q :: q in perms ==> q.id != p.id by {
        forall q | q in perms
          ensures q.id != p.id
        {
          var i :| 0 <= i < |perms| && perms[i] == q;
          assert ids[i] == q.id;
        }
      }
      (perms + [p], p)
  }

  /** Find-or-create keeps the table's unique key and unique ids. */
  lemma FindOrCreateKeepsTableUnique(perms: seq<Permission>, d: PermissionDef)
    requires UniqueKeys(perms) && UniquePermissionIds(perms)
    ensures UniqueKeys(FindOrCreatePermission(perms, d).0)
    ensures UniquePermissionIds(FindOrCreatePermission(perms, d).0)
  {
    var r := FindOrCreatePermission(perms, d);
    if r.0 != perms {
      forall i | 0 <= i < |perms|
        ensures !SameKey(perms[i], r.1) && perms[i].id != r.1.id
      {
        assert perms[i] in perms;
      }
    }
  }

  /** `seedPermissions`: find-or-create each definition in turn; the table
      after the whole run and the permission found or made for each
      definition. */
  function SeedPermissions(perms: seq<Permission>, defs: seq<PermissionDef>): (r: (seq<Permission>, seq<Permission>))
    ensures |r.1| == |defs|
    ensures forall i :: 0 <= i < |defs| ==> DefKey(defs[i], r.1[i]) && r.1[i] in r.0
    ensures |perms| <= |r.0| && r.0[..|perms|] == perms
    decreases |defs|
  {
    if |defs| == 0 then (perms, [])
    else
      var first := FindOrCreatePermission(perms, defs[0]);
      var rest := SeedPermissions(first.0, defs[1..]);
      assert first.0[..|perms|] == perms;
      assert rest.0[..|perms|] == rest.0[..|first.0|][..|perms|];
      assert first.1 in rest.0 by {
        var k :| 0 <= k < |first.0| && first.0[k] == first.1;
        assert rest.0[k] == first.1;
      }
      (rest.0, [first.1] + rest.1)
  }

  /** Seeding never breaks the unique (resource, action) key or the unique
      ids: an existing pair is reused, never added a second time. */
  lemma {:induction false} SeedKeepsTableUnique(perms: seq<Permission>, defs: seq<PermissionDef>)
    requires UniqueKeys(perms) && UniquePermissionIds(perms)
    ensures UniqueKeys(SeedPermissions(perms, defs).0)
    ensures UniquePermissionIds(SeedPermissions(perms, defs).0)
    decreases |defs|
  {
    if |defs| > 0 {
      FindOrCreateKeepsTableUnique(perms, defs[0]);
      SeedKeepsTableUnique(FindOrCreatePermission(perms, defs[0]).0, defs[1..]);
    }
  }

  /** When every definition's pair is already stored, seeding adds nothing. */
  lemma {:induction false} SeedOverFullTableAddsNothing(perms: seq<Permission>, defs: seq<PermissionDef>)
    requires forall d :: d in defs ==> exists p :: p in perms && DefKey(d, p)
    ensures SeedPermissions(perms, defs).0 == perms
    decreases |defs|
  {
    if |defs| > 0 {
      assert defs[0] in defs;
      assert forall d :: d in defs[1..] ==> d in defs;
      SeedOverFullTableAddsNothing(perms, defs[1..]);
    }
  }

  /** In a table with unique keys, a row whose pair is a definition's pair is
      the permission seeding found or made for it. */
  lemma SeedListCoversSeedKeys(perms: seq<Permission>, defs: seq<PermissionDef>, q: Permission, i: nat)
    requires UniqueKeys(SeedPermissions(perms, defs).0)
    requires i < |defs| && q in SeedPermissions(perms, defs).0 && DefKey(defs[i], q)
    ensures q == SeedPermissions(perms, defs).1[i]
  {
    var r := SeedPermissions(perms, defs);
    var table, p := r.0, r.1[i];
    assert p in table && DefKey(defs[i], p);
    var a :| 0 <= a < |table| && table[a] == q;
    var b :| 0 <= b < |table| && table[b] == p;
    assert SameKey(table[a], table[b]);
    assert a == b;
  }

  /** The permissions seeding returns for definitions with distinct pairs
      are distinct rows, so their ids are distinct too. */
  lemma SeededIdsDistinct(perms: seq<Permission>, defs: seq<PermissionDef>)
    requires UniquePermissionIds(SeedPermissions(perms, defs).0)
    requires DistinctKeys(defs)
    ensures Distinct(PermissionIds(SeedPermissions(perms, defs).1))
  {
    var r := SeedPermissions(perms, defs);
    var table, seeded := r.0, r.1;
    var ids := PermissionIds(seeded);
    forall i, j | 0 <= i < j < |ids|
      ensures ids[i] != ids[j]
    {
      assert DefKey(defs[i], seeded[i]) && seeded[i] in table;
      assert DefKey(defs[j], seeded[j]) && seeded[j] in table;
      assert seeded[i] != seeded[j];
      RowsOfUniqueTable(table, seeded[i], seeded[j]);
    }
  }

  /** Two different rows of a table with unique ids have different ids. */
  lemma RowsOfUniqueTable(table: seq<Permission>, p: Permission, q: Permission)
    requires UniquePermissionIds(table)
    requires p in table && q in table && p != q
    ensures p.id != q.id
  {
    var a :| 0 <= a < |table| && table[a] == p;
    var b :| 0 <= b < |table| && table[b] == q;
    assert a != b;
  }

  // ---------------------------------------------------------------------
  // Roles

  /** The read permissions VIEWER gets. */
  predicate IsReadGrant(p: Permission) {
    p.action == "read"
  }

  /** ADMIN's permissions: everything on users and menus, and every read. */
  predicate IsAdminGrant(p: Permission) {
    p.resource in ["user", "menu"] || p.action == "read"
  }

  /** The ids of a list of permissions as a duplicate-free list: the
      `toSet()` the role's permission set is filled from. */
  function IdSet(ps: seq<Permission>): (r: seq<nat>)
    ensures Distinct(r)
    ensures forall x :: x in r <==> exists p :: p in ps && p.id == x
  {
    var ids := PermissionIds(ps);
    forall x
      ensures x in ids <==> exists p :: p in ps && p.id == x
    {
      if x in ids {
        var i :| 0 <= i < |ids| && ids[i] == x;
        assert ps[i] in ps;
      }
      if exists p :: p in ps && p.id == x {
        var p :| p in ps && p.id == x;
        var i :| 0 <= i < |ps| && ps[i] == p;
        assert ids[i] == x;
      }
    }
    Dedup(ids)
  }

  /** `findByCode(code) ?: save(Role(..., isSystem = true)).also { addAll }`:
      the permissions are granted only to a role created here. */
  function FindOrCreateRole(roles: seq<Role>, code: string, name: string, description: string, grant: seq<nat>): (r: seq<Role>)
    ensures |r| > 0
    ensures (exists x :: x in roles && x.code == code) ==> r == roles
    ensures (forall x :: x in roles ==> x.code != code) ==>
      && |r| == |roles| + 1 && r[..|roles|] == roles
      && r[|roles|] == Role(r[|roles|].id, code, name, Some(description), true, true, grant)
      && (forall x :: x in roles ==> x.id != r[|roles|].id)
  {
    if FindRoleByCode(roles, code).Some? then roles
    else
      var ids := RoleIds(roles);
      assert forall x :: x in roles ==> x.id < FreshId(ids) by {
        forall x | x in roles
          ensures x.id < FreshId(ids)
        {
          var i :| 0 <= i < |roles| && roles[i] == x;
          assert ids[i] == x.id;
        }
      }
      roles + [Role(FreshId(ids), code, name, Some(description), true, true, grant)]
  }

  /** `seedRoles`: SUPER_ADMIN with every seeded permission, ADMIN with the
      user and menu permissions plus all reads, VIEWER with the reads. */
  function SeedRoles(roles: seq<Role>, seeded: seq<Permission>): (r: seq<Role>)
    ensures |r| > 0
  {
    var r1 := FindOrCreateRole(roles, SuperAdminCode, "최고 관리자", "모든 권한을 가진 최고 관리자", IdSet(seeded));
    var r2 := FindOrCreateRole(r1, AdminCode, "관리자", "일반 관리자", IdSet(Filter(seeded, IsAdminGrant)));
    FindOrCreateRole(r2, ViewerCode, "뷰어", "읽기 전용 사용자", IdSet(Filter(seeded, IsReadGrant)))
  }

  /** When no stored role has the code, find-or-create appends the new
      system role. */
  lemma CreateRoleWhenAbsent(roles: seq<Role>, code: string, name: string, description: string, grant: seq<nat>)
    requires forall x :: x in roles ==> x.code != code
    ensures FindOrCreateRole(roles, code, name, description, grant)
      == roles + [Role(FreshId(RoleIds(roles)), code, name, Some(description), true, true, grant)]
  {
  }

  /** Seeding roles into an empty table creates exactly the three system
      roles, active, each with its grant, with distinct ids. */
  lemma SeedRolesIntoEmptyTable(seeded: seq<Permission>)
    ensures var r := SeedRoles([], seeded);
      && |r| == 3 && r[0].code == SuperAdminCode && r[1].code == AdminCode && r[2].code == ViewerCode
      && r[0].isSystem && r[1].isSystem && r[2].isSystem
      && r[0].isActive && r[1].isActive && r[2].isActive
      && r[0].permissions == IdSet(seeded)
      && r[1].permissions == IdSet(Filter(seeded, IsAdminGrant))
      && r[2].permissions == IdSet(Filter(seeded, IsReadGrant))
      && r[0].id != r[1].id && r[0].id != r[2].id && r[1].id != r[2].id
  {
    var g1, g2, g3 := IdSet(seeded), IdSet(Filter(seeded, IsAdminGrant)), IdSet(Filter(seeded, IsReadGrant));
    CreateRoleWhenAbsent([], SuperAdminCode, "최고 관리자", "모든 권한을 가진 최고 관리자", g1);
    var r1 := FindOrCreateRole([], SuperAdminCode, "최고 관리자", "모든 권한을 가진 최고 관리자", g1);
    assert r1[0].code == SuperAdminCode;
    CreateRoleWhenAbsent(r1, AdminCode, "관리자", "일반 관리자", g2);
    var r2 := FindOrCreateRole(r1, AdminCode, "관리자", "일반 관리자", g2);
    assert r2[0].code == SuperAdminCode && r2[1].code == AdminCode;
    assert forall x :: x in r2 ==> x == r2[0] || x == r2[1];
    CreateRoleWhenAbsent(r2, ViewerCode, "뷰어", "읽기 전용 사용자", g3);
  }

  /** Some stored role has the code. */
  predicate HasCode(roles: seq<Role>, code: string) {
    exists x :: x in roles && x.code == code
  }

  /** Find-or-create extends the table, keeping the codes already there. */
  lemma FindOrCreateRoleExtends(roles: seq<Role>, code: string, name: string, description: string, grant: seq<nat>, other: string)
    ensures var r := FindOrCreateRole(roles, code, name, description, grant);
      |roles| <= |r| && r[..|roles|] == roles && (HasCode(roles, other) ==> HasCode(r, other))
  {
    var r := FindOrCreateRole(roles, code, name, description, grant);
    if HasCode(roles, other) {
      var x :| x in roles && x.code == other;
      var i :| 0 <= i < |roles| && roles[i] == x;
      assert r[i] == x;
    }
  }

  /** A role whose code already exists is reused as it is: seeding roles
      never alters a stored role, and adds nothing when all three codes are
      present. */
  lemma SeedRolesKeepsExistingRoles(roles: seq<Role>, seeded: seq<Permission>)
    ensures |roles| <= |SeedRoles(roles, seeded)|
    ensures SeedRoles(roles, seeded)[..|roles|] == roles
    ensures HasCode(roles, SuperAdminCode) && HasCode(roles, AdminCode) && HasCode(roles, ViewerCode) ==>
      SeedRoles(roles, seeded) == roles
  {
    var g1, g2, g3 := IdSet(seeded), IdSet(Filter(seeded, IsAdminGrant)), IdSet(Filter(seeded, IsReadGrant));
    var r1 := FindOrCreateRole(roles, SuperAdminCode, "최고 관리자", "모든 권한을 가진 최고 관리자", g1);
    var r2 := FindOrCreateRole(r1, AdminCode, "관리자", "일반 관리자", g2);
    var r3 := FindOrCreateRole(r2, ViewerCode, "뷰어", "읽기 전용 사용자", g3);
    FindOrCreateRoleExtends(roles, SuperAdminCode, "최고 관리자", "모든 권한을 가진 최고 관리자", g1, ViewerCode);
    FindOrCreateRoleExtends(r1, AdminCode, "관리자", "일반 관리자", g2, ViewerCode);
    FindOrCreateRoleExtends(r2, ViewerCode, "뷰어", "읽기 전용 사용자", g3, ViewerCode);
    assert r2[..|roles|] == r2[..|r1|][..|roles|];
    assert r3[..|roles|] == r3[..|r2|][..|roles|];
  }

  /** The grants nest: VIEWER's ⊆ ADMIN's ⊆ SUPER_ADMIN's, which is every
      seeded permission. */
  lemma GrantsNest(seeded: seq<Permission>, x: nat)
    ensures x in IdSet(Filter(seeded, IsReadGrant)) ==> x in IdSet(Filter(seeded, IsAdminGrant))
    ensures x in IdSet(Filter(seeded, IsAdminGrant)) ==> x in IdSet(seeded)
    ensures x in IdSet(seeded) <==> exists p :: p in seeded && p.id == x
  {
    if x in IdSet(Filter(seeded, IsReadGrant)) {
      var p :| p in Filter(seeded, IsReadGrant) && p.id == x;
      assert p in Filter(seeded, IsAdminGrant);
    }
  }

  /** The seed definitions ADMIN and VIEWER receive, by pair. */
  predicate IsAdminDef(d: PermissionDef) {
    d.resource in ["user", "menu"] || d.action == "read"
  }

  predicate IsReadDef(d: PermissionDef) {
    d.action == "read"
  }

  /** Filtering a four-element list keeps one element per position that
      passes. */
  lemma {:induction false} FilterFour<T(!new)>(b: seq<T>, p: T -> bool)
    requires |b| == 4
    ensures |Filter(b, p)| == (if p(b[0]) then 1 else 0) + (if p(b[1]) then 1 else 0)
      + (if p(b[2]) then 1 else 0) + (if p(b[3]) then 1 else 0)
  {
    var b1 := b[1..];
    var b2 := b1[1..];
    var b3 := b2[1..];
    assert |Filter(b3, p)| == (if p(b[3]) then 1 else 0) + |Filter(b3[1..], p)|;
    assert |Filter(b2, p)| == (if p(b[2]) then 1 else 0) + |Filter(b3, p)|;
    assert |Filter(b1, p)| == (if p(b[1]) then 1 else 0) + |Filter(b2, p)|;
    assert |Filter(b, p)| == (if p(b[0]) then 1 else 0) + |Filter(b1, p)|;
  }

  /** Each resource block holds one read; ADMIN takes a whole user or menu
      block and only the read of any other. */
  lemma SeedBlockCounts(resource: string, names: seq<string>)
    requires |names| == 4
    ensures |Filter(SeedBlock(resource, names), IsReadDef)| == 1
    ensures |Filter(SeedBlock(resource, names), IsAdminDef)| == if resource in ["user", "menu"] then 4 else 1
  {
    FilterFour(SeedBlock(resource, names), IsReadDef);
    FilterFour(SeedBlock(resource, names), IsAdminDef);
  }

  /** Four blocks, the first and last for user and menu and the middle two
      for other resources, give ADMIN ten definitions and VIEWER four. */
  lemma {:induction false} GrantCountsOfBlocks(a: string, b: string, c: string, d: string,
                                               na: seq<string>, nb: seq<string>, nc: seq<string>, nd: seq<string>)
    requires |na| == 4 && |nb| == 4 && |nc| == 4 && |nd| == 4
    requires a in ["user", "menu"] && d in ["user", "menu"]
    requires b !in ["user", "menu"] && c !in ["user", "menu"]
    ensures |Filter(SeedBlock(a, na) + SeedBlock(b, nb) + SeedBlock(c, nc) + SeedBlock(d, nd), IsAdminDef)| == 10
    ensures |Filter(SeedBlock(a, na) + SeedBlock(b, nb) + SeedBlock(c, nc) + SeedBlock(d, nd), IsReadDef)| == 4
  {
    var ba, bb, bc, bd := SeedBlock(a, na), SeedBlock(b, nb), SeedBlock(c, nc), SeedBlock(d, nd);
    SeedBlockCounts(a, na);
    SeedBlockCounts(b, nb);
    SeedBlockCounts(c, nc);
    SeedBlockCounts(d, nd);
    FilterAppend(ba + bb + bc, bd, IsAdminDef);
    FilterAppend(ba + bb, bc, IsAdminDef);
    FilterAppend(ba, bb, IsAdminDef);
    FilterAppend(ba + bb + bc, bd, IsReadDef);
    FilterAppend(ba + bb, bc, IsReadDef);
    FilterAppend(ba, bb, IsReadDef);
  }

  /** Of the sixteen seeds, ten go to ADMIN (four user, four menu, and the
      role and permission reads) and four to VIEWER. */
  lemma SeedGrantSizes()
    ensures |Filter(SeedDefs, IsAdminDef)| == 10
    ensures |Filter(SeedDefs, IsReadDef)| == 4
  {
    GrantCountsOfBlocks("user", "role", "permission", "menu",
      ["사용자 생성", "사용자 조회", "사용자 수정", "사용자 삭제"], ["역할 생성", "역할 조회", "역할 수정", "역할 삭제"],
      ["권한 생성", "권한 조회", "권한 수정", "권한 삭제"], ["메뉴 생성", "메뉴 조회", "메뉴 수정", "메뉴 삭제"]);
  }

  /** Filtering two lists by predicates that agree position by position
      keeps as many elements from each. */
  lemma {:induction false} FilterLengthsAgree(ps: seq<Permission>, p: Permission -> bool, ds: seq<PermissionDef>, q: PermissionDef -> bool)
    requires |ps| == |ds|
    requires forall i :: 0 <= i < |ps| ==> p(ps[i]) == q(ds[i])
    ensures |Filter(ps, p)| == |Filter(ds, q)|
  {
    if |ps| > 0 {
      FilterLengthsAgree(ps[1..], p, ds[1..], q);
    }
  }

  /** A sub-list of a list with distinct ids has distinct ids. */
  lemma {:induction false} FilterKeepsDistinctIds(ps: seq<Permission>, p: Permission -> bool)
    requires Distinct(PermissionIds(ps))
    ensures Distinct(PermissionIds(Filter(ps, p)))
  {
    if |ps| > 0 {
      var ids := PermissionIds(ps);
      assert PermissionIds(ps[1..]) == ids[1..];
      FilterKeepsDistinctIds(ps[1..], p);
      if p(ps[0]) {
        var f := Filter(ps, p);
        assert f == [ps[0]] + Filter(ps[1..], p);
        forall k | 0 <= k < |Filter(ps[1..], p)|
          ensures Filter(ps[1..], p)[k].id != ps[0].id
        {
          var x := Filter(ps[1..], p)[k];
          assert x in ps[1..];
          var m :| 0 <= m < |ps[1..]| && ps[1..][m] == x;
          assert ids[m + 1] == x.id;
        }
      }
    }
  }

  /** Over a table whose keys and ids are unique, definitions with distinct
      pairs yield one permission id each, and the ADMIN and VIEWER grants get
      one id per definition their predicates select. */
  lemma SeededGrantCountsFor(perms: seq<Permission>, defs: seq<PermissionDef>)
    requires UniqueKeys(perms) && UniquePermissionIds(perms) && DistinctKeys(defs)
    ensures var seeded := SeedPermissions(perms, defs).1;
      && |IdSet(seeded)| == |defs|
      && |IdSet(Filter(seeded, IsAdminGrant))| == |Filter(defs, IsAdminDef)|
      && |IdSet(Filter(seeded, IsReadGrant))| == |Filter(defs, IsReadDef)|
  {
    var seeded := SeedPermissions(perms, defs).1;
    SeedKeepsTableUnique(perms, defs);
    SeededIdsDistinct(perms, defs);
    FilterLengthsAgree(seeded, IsAdminGrant, defs, IsAdminDef);
    FilterLengthsAgree(seeded, IsReadGrant, defs, IsReadDef);
    FilterKeepsDistinctIds(seeded, IsAdminGrant);
    FilterKeepsDistinctIds(seeded, IsReadGrant);
    DedupOfDistinct(PermissionIds(seeded));
    DedupOfDistinct(PermissionIds(Filter(seeded, IsAdminGrant)));
    DedupOfDistinct(PermissionIds(Filter(seeded, IsReadGrant)));
  }

  /** Over a table whose keys and ids are unique, seeding grants
      SUPER_ADMIN 16 permissions, ADMIN 10 and VIEWER 4. */
  lemma SeededGrantCounts(perms: seq<Permission>)
    requires UniqueKeys(perms) && UniquePermissionIds(perms)
    ensures var seeded := SeedPermissions(perms, SeedDefs).1;
      && |IdSet(seeded)| == 16
      && |IdSet(Filter(seeded, IsAdminGrant))| == 10
      && |IdSet(Filter(seeded, IsReadGrant))| == 4
  {
    SeedDefsAreTheGrid();
    SeedGrantSizes();
    SeededGrantCountsFor(perms, SeedDefs);
  }

  // ---------------------------------------------------------------------
  // Migration

  /** `migrateExistingUsers` for one account: only an account with no roles
      and a legacy role is touched, and only when a role with the legacy
      role's name as code exists. */
  function MigrateUser(u: AdminUser, roles: seq<Role>): AdminUser {
    if |u.roles| == 0 && u.legacyRole.Some? then
      match FindRoleByCode(roles, u.legacyRole.value)
      case Some(k) => u.(roles := [roles[k].id])
      case None => u
    else u
  }

  function Migrate(users: seq<AdminUser>, roles: seq<Role>): (r: seq<AdminUser>)
    ensures |r| == |users|
    ensures forall i :: 0 <= i < |users| ==> r[i] == MigrateUser(users[i], roles)
  {
    seq(|users|, i requires 0 <= i < |users| => MigrateUser(users[i], roles))
  }

  /** The migration rule: an account is changed exactly when it has no roles,
      a legacy role, and a role with that code exists; it then holds exactly
      that role and nothing else about it changes. */
  lemma MigrateUserRule(u: AdminUser, roles: seq<Role>)
    ensures MigrateUser(u, roles) != u <==>
      |u.roles| == 0 && u.legacyRole.Some? && exists x :: x in roles && x.code == u.legacyRole.value
    ensures MigrateUser(u, roles) != u ==>
      exists x :: x in roles && x.code == u.legacyRole.value && MigrateUser(u, roles) == u.(roles := [x.id])
  {
    if |u.roles| == 0 && u.legacyRole.Some? {
      match FindRoleByCode(roles, u.legacyRole.value)
      case Some(k) =>
        assert roles[k] in roles;
        assert MigrateUser(u, roles).roles != u.roles;
      case None =>
    }
  }

  /** A second migration changes nothing. */
  lemma MigrateIsIdempotent(users: seq<AdminUser>, roles: seq<Role>)
    ensures Migrate(Migrate(users, roles), roles) == Migrate(users, roles)
  {
  }

  // ---------------------------------------------------------------------
  // The run

  /** `run`: when any role exists, only migrate; otherwise seed permissions,
      seed roles over them, then migrate. */
  function Run(db: Db): (r: Db)
    ensures r.refreshTokens == db.refreshTokens && r.menuTree == db.menuTree
    ensures |r.roles| > 0
  {
    if |db.roles| > 0 then db.(users := Migrate(db.users, db.roles))
    else
      var seeded := SeedPermissions(db.permissions, SeedDefs);
      var roles := SeedRoles(db.roles, seeded.1);
      db.(permissions := seeded.0, roles := roles, users := Migrate(db.users, roles))
  }

  /** With roles present, the run seeds nothing and only migrates. */
  lemma RunSkipsSeedingWhenRolesExist(db: Db)
    requires |db.roles| > 0
    ensures Run(db).roles == db.roles && Run(db).permissions == db.permissions
    ensures Run(db).users == Migrate(db.users, db.roles)
  {
  }

  /** On an empty role table the run creates the three system roles. */
  lemma RunSeedsEmptyRoleTable(db: Db)
    requires |db.roles| == 0
    ensures var r := Run(db).roles;
      && |r| == 3 && r[0].code == SuperAdminCode && r[1].code == AdminCode && r[2].code == ViewerCode
      && r[0].isSystem && r[1].isSystem && r[2].isSystem
  {
    var seeded := SeedPermissions(db.permissions, SeedDefs).1;
    assert db.roles == [];
    assert Run(db).roles == SeedRoles([], seeded);
    SeedRolesIntoEmptyTable(seeded);
  }

  /** The run keeps every stored permission, adds only seed permissions, and
      keeps the table's unique key and unique ids. */
  lemma RunKeepsPermissionTable(db: Db)
    ensures Run(db).permissions[..|db.permissions|] == db.permissions
    ensures UniqueKeys(db.permissions) && UniquePermissionIds(db.permissions) ==>
      UniqueKeys(Run(db).permissions) && UniquePermissionIds(Run(db).permissions)
  {
    if |db.roles| == 0 {
      assert Run(db).permissions == SeedPermissions(db.permissions, SeedDefs).0;
      if UniqueKeys(db.permissions) && UniquePermissionIds(db.permissions) {
        SeedKeepsTableUnique(db.permissions, SeedDefs);
      }
    }
  }

  /** Starting the application twice is the same as starting it once: the
      second run finds roles, skips seeding, and migration is idempotent. */
  lemma RunIsIdempotent(db: Db)
    ensures Run(Run(db)) == Run(db)
  {
    var once := Run(db);
    if |db.roles| > 0 {
      MigrateIsIdempotent(db.users, db.roles);
    } else {
      var seeded := SeedPermissions(db.permissions, SeedDefs);
      MigrateIsIdempotent(db.users, SeedRoles(db.roles, seeded.1));
    }
  }
}
