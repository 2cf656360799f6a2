/** The security principal built from an account loaded with its roles and
    their permissions: the role codes, the permission authorities, the
    granted-authority list and the account flags. */
module UserDetails {
  import opened Seqs
  import opened AdminUsers
  import opened Roles
  import opened Permissions
  import opened Store

  /** The principal: the account and its roles as the eager load fetched
      them. */
  datatype Principal = Principal(user: AdminUser, grants: seq<RoleGrant>)

  /** `roleCodes`: one code per role, in role order. */
  function RoleCodes(grants: seq<RoleGrant>): (r: seq<string>)
    ensures |r| == |grants|
    ensures forall i :: 0 <= i < |grants| ==> r[i] == grants[i].role.code
  {
    seq(|grants|, i requires 0 <= i < |grants| => grants[i].role.code)
  }

  /** The authority strings of one role's permissions, in order. */
  function RoleAuthorities(g: RoleGrant): (r: seq<string>)
    ensures |r| == |g.permissions|
    ensures forall i :: 0 <= i < |g.permissions| ==> r[i] == Authority(g.permissions[i])
  {
    seq(|g.permissions|, i requires 0 <= i < |g.permissions| => Authority(g.permissions[i]))
  }

  /** `flatMap` over roles of their permissions' authorities: one entry per
      (role, permission) pair, duplicates across roles kept. */
  function AuthorityList(grants: seq<RoleGrant>): (r: seq<string>)
  {
    Flatten(seq(|grants|, i requires 0 <= i < |grants| => RoleAuthorities(grants[i])))
  }

  /** `permissionAuthorities`: the set of all those authority strings. */
  function PermissionAuthorities(grants: seq<RoleGrant>): set<string> {
    Elems(AuthorityList(grants))
  }

  /** `a` is the authority of some permission of some role. */
  predicate Granted(grants: seq<RoleGrant>, a: string) {
    exists i, j :: 0 <= i < |grants| && 0 <= j < |grants[i].permissions| && a == Authority(grants[i].permissions[j])
  }

  /** `permissionAuthorities` is exactly the union over roles of their
      permissions' authorities. */
  lemma PermissionAuthoritiesAreUnion(grants: seq<RoleGrant>, a: string)
    ensures a in PermissionAuthorities(grants) <==> Granted(grants, a)
  {
    var ss := seq(|grants|, i requires 0 <= i < |grants| => RoleAuthorities(grants[i]));
    InFlatten(ss, a);
    if a in AuthorityList(grants) {
      var i :| 0 <= i < |ss| && a in ss[i];
      var j :| 0 <= j < |ss[i]| && ss[i][j] == a;
      assert a == Authority(grants[i].permissions[j]);
    }
    if Granted(grants, a) {
      var i, j :| 0 <= i < |grants| && 0 <= j < |grants[i].permissions| && a == Authority(grants[i].permissions[j]);
      assert ss[i][j] == a;
    }
  }

  /** The "ROLE_"-prefixed authority of a role code. */
  function RoleAuthority(code: string): (a: string)
    ensures "ROLE_" <= a && a[5..] == code
  {
    "ROLE_" + code
  }

  /** `getAuthorities`: first one "ROLE_" authority per role, then one
      authority per (role, permission) pair. */
  function GetAuthorities(p: Principal): (r: seq<string>)
    ensures |r| == |p.grants| + |AuthorityList(p.grants)|
    ensures forall i :: 0 <= i < |p.grants| ==> r[i] == RoleAuthority(p.grants[i].role.code)
    ensures r[|p.grants|..] == AuthorityList(p.grants)
  {
    var codes := RoleCodes(p.grants);
    seq(|codes|, i requires 0 <= i < |codes| => RoleAuthority(codes[i])) + AuthorityList(p.grants)
  }

  function SumOfPermissionCounts(grants: seq<RoleGrant>): nat {
    if |grants| == 0 then 0 else |grants[0].permissions| + SumOfPermissionCounts(grants[1..])
  }

  /** The authority list has |roles| + Σ|permissions| entries: nothing is
      merged, even when two roles share a permission. */
  lemma {:induction false} GetAuthoritiesLength(p: Principal)
    ensures |GetAuthorities(p)| == |p.grants| + SumOfPermissionCounts(p.grants)
  {
    AuthorityListLength(p.grants);
  }

  lemma {:induction false} AuthorityListLength(grants: seq<RoleGrant>)
    ensures |AuthorityList(grants)| == SumOfPermissionCounts(grants)
  {
    var ss := seq(|grants|, i requires 0 <= i < |grants| => RoleAuthorities(grants[i]));
    SumOfLengthsCounts(grants, ss);
  }

  lemma {:induction false} SumOfLengthsCounts(grants: seq<RoleGrant>, ss: seq<seq<string>>)
    requires |ss| == |grants|
    requires forall i :: 0 <= i < |grants| ==> |ss[i]| == |grants[i].permissions|
    ensures SumOfLengths(ss) == SumOfPermissionCounts(grants)
  {
    if |grants| > 0 {
      SumOfLengthsCounts(grants[1..], ss[1..]);
    }
  }

  /** The entries after the "ROLE_" block form exactly the set
      `permissionAuthorities`. */
  lemma PermissionBlockIsPermissionAuthorities(p: Principal)
    ensures Elems(GetAuthorities(p)[|p.grants|..]) == PermissionAuthorities(p.grants)
  {
  }

  /** Every granted authority is a role authority or a permission authority
      of the principal, and each of those is granted. */
  lemma GrantedAuthorities(p: Principal, a: string)
    ensures a in GetAuthorities(p) <==>
      (exists i :: 0 <= i < |p.grants| && a == RoleAuthority(p.grants[i].role.code))
      || Granted(p.grants, a)
  {
    var r := GetAuthorities(p);
    var n := |p.grants|;
    PermissionAuthoritiesAreUnion(p.grants, a);
    assert r == r[..n] + r[n..];
    if a in r[..n] {
      var i :| 0 <= i < n && r[..n][i] == a;
      assert a == RoleAuthority(p.grants[i].role.code);
    }
    if exists i :: 0 <= i < |p.grants| && a == RoleAuthority(p.grants[i].role.code) {
      var i :| 0 <= i < |p.grants| && a == RoleAuthority(p.grants[i].role.code);
      assert r[i] == a;
    }
  }

  /** `getUsername`: the email. */
  function Username(p: Principal): string {
    p.user.email
  }

  /** Accounts and credentials never expire. */
  function IsAccountNonExpired(p: Principal): bool {
    true
  }

  function IsCredentialsNonExpired(p: Principal): bool {
    true
  }

  /** The principal is locked out exactly while the account is locked and
      disabled exactly while it is inactive. */
  function IsAccountNonLocked(p: Principal): (b: bool)
    ensures b <==> p.user.lockedAt.None?
  {
    !p.user.IsLocked()
  }

  function IsEnabled(p: Principal): (b: bool)
    ensures b <==> p.user.isActive
  {
    p.user.isActive
  }

  /** A principal that five consecutive failures locked is no longer
      "non-locked", while the failures leave it enabled. */
  lemma LockedPrincipalAfterFiveFailures(u: AdminUser, grants: seq<RoleGrant>, now: int)
    requires u.loginFailCount == 0 && !u.IsLocked() && u.isActive
    ensures IsAccountNonLocked(Principal(IncreaseTimes(u, 4, now), grants))
    ensures !IsAccountNonLocked(Principal(IncreaseTimes(u, 5, now), grants))
    ensures IsEnabled(Principal(IncreaseTimes(u, 5, now), grants))
  {
    FailuresFromFreshAccount(u, 4, now);
    FailuresFromFreshAccount(u, 5, now);
  }
}
