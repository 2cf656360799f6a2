/** A permission is a (resource, action) pair, unique in its table, whose
    authority string "resource:action" is the unit every authorization
    decision checks. */
module Permissions {
  import opened Seqs

  datatype Permission = Permission(
    id: nat,
    resource: string,
    action: string,
    name: string,
    description: Option<string>)

  /** The authority string: the resource, a colon, then the action. */
  function Authority(p: Permission): (a: string)
    ensures |a| == |p.resource| + 1 + |p.action|
    ensures p.resource <= a && a[|p.resource|] == ':'
    ensures a[|p.resource| + 1..] == p.action
  {
    p.resource + ":" + p.action
  }

  /** The pair that forms the table's unique key. */
  predicate SameKey(p: Permission, q: Permission) {
    p.resource == q.resource && p.action == q.action
  }

  /** The table's unique constraint on (resource, action). */
  predicate UniqueKeys(perms: seq<Permission>) {
    forall i, j :: 0 <= i < j < |perms| ==> !SameKey(perms[i], perms[j])
  }

  predicate IsColon(c: char) { c == ':' }

  /** Split an authority string at its first colon. */
  function SplitAuthority(s: string): (r: Option<(string, string)>)
    ensures r.None? <==> ':' !in s
    ensures r.Some? ==> ':' !in r.value.0 && s == r.value.0 + ":" + r.value.1
  {
    match IndexWhere(s, IsColon)
    case None => None
    case Some(k) =>
      assert s == s[..k] + [s[k]] + s[k + 1..];
      Some((s[..k], s[k + 1..]))
  }

  /** When the resource has no colon, the authority string splits back into
      the (resource, action) pair it was built from. */
  lemma AuthorityRoundTrip(p: Permission)
    requires ':' !in p.resource
    ensures SplitAuthority(Authority(p)) == Some((p.resource, p.action))
  {
    var a := Authority(p);
    assert a[|p.resource|] == ':';
    var r := SplitAuthority(a);
    SplitPrefixUnique(r.value.0, r.value.1, p.resource, p.action);
  }

  lemma FirstColonAfterPrefix(r: string, a: string)
    requires ':' !in r
    ensures IndexWhere(r + ":" + a, IsColon) == Some(|r|)
  {
    var s := r + ":" + a;
    assert IsColon(s[|r|]);
    assert forall j :: 0 <= j < |r| ==> s[j] == r[j];
  }

  /** A colon-free prefix followed by a colon is determined by the string. */
  lemma SplitPrefixUnique(r1: string, a1: string, r2: string, a2: string)
    requires ':' !in r1 && ':' !in r2
    requires r1 + ":" + a1 == r2 + ":" + a2
    ensures r1 == r2 && a1 == a2
  {
    var s := r1 + ":" + a1;
    FirstColonAfterPrefix(r1, a1);
    FirstColonAfterPrefix(r2, a2);
    assert r1 == s[..|r1|] == r2;
    assert a1 == s[|r1| + 1..] == a2;
  }

  /** For colon-free resources, distinct keys give distinct authority strings,
      so the authority identifies the permission's key. */
  lemma AuthorityInjective(p: Permission, q: Permission)
    requires ':' !in p.resource && ':' !in q.resource
    ensures Authority(p) == Authority(q) <==> SameKey(p, q)
  {
    if Authority(p) == Authority(q) {
      SplitPrefixUnique(p.resource, p.action, q.resource, q.action);
    }
  }
}
