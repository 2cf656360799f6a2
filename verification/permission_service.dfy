/** Permission administration: creation under the (resource, action) unique
    key, the update rule, and the grouped and flat resource listings. */
module PermissionService {
  import opened Seqs
  import opened Strings
  import opened Errors
  import opened Permissions
  import opened Store

  const DuplicatePermissionMessage: string := "이미 존재하는 권한입니다: "
  const PermissionNotFoundMessage: string := "권한을 찾을 수 없습니다: "
  const PermissionInUseMessage: string := "사용 중인 권한은 삭제할 수 없습니다."

  datatype CreatePermissionRequest = CreatePermissionRequest(
    resource: string, action: string, name: string, description: Option<string>)
  datatype UpdatePermissionRequest = UpdatePermissionRequest(name: string, description: Option<string>)

  /** The response: the stored fields plus the derived authority string. */
  datatype PermissionResponse = PermissionResponse(
    id: nat, resource: string, action: string, name: string, description: Option<string>, authority: string)

  function ToResponse(p: Permission): (r: PermissionResponse)
    ensures r.authority == Authority(p)
  {
    PermissionResponse(p.id, p.resource, p.action, p.name, p.description, Authority(p))
  }

  // ---------------------------------------------------------------------
  // Create and update

  /** `create`: a taken (resource, action) pair is a conflict and nothing is
      saved; otherwise the new permission is appended. */
  function Create(perms: seq<Permission>, req: CreatePermissionRequest): (s: Step<seq<Permission>, PermissionResponse>)
    ensures s.result.Err? ==> s.state == perms
    ensures s.result.Ok? ==> |s.state| == |perms| + 1 && s.state[..|perms|] == perms
  {
    if FindPermissionByKey(perms, req.resource, req.action).Some? then
      Step(perms, Err(DuplicateException(DuplicatePermissionMessage + req.resource + ":" + req.action)))
    else
      var p := Permission(FreshId(PermissionIds(perms)), req.resource, req.action, req.name, req.description);
      Step(perms + [p], Ok(ToResponse(p)))
  }

  /** The outcomes of `create`: refused exactly when the pair is taken, with
      the pair's authority in the message; otherwise the new row carries the
      request's fields and a fresh id, and the unique key still holds. */
  lemma CreateOutcomes(perms: seq<Permission>, req: CreatePermissionRequest)
    ensures Create(perms, req).result.Err? <==>
      exists p :: p in perms && p.resource == req.resource && p.action == req.action
    ensures Create(perms, req).result.Err? ==>
      Create(perms, req).result.error == DuplicateException(DuplicatePermissionMessage
        + Authority(Permission(0, req.resource, req.action, req.name, req.description)))
    ensures Create(perms, req).result.Ok? ==>
      var p := Create(perms, req).state[|perms|];
      && p.resource == req.resource && p.action == req.action
      && p.name == req.name && p.description == req.description
      && (forall q :: q in perms ==> q.id != p.id)
    ensures UniqueKeys(perms) ==> UniqueKeys(Create(perms, req).state)
  {
    var ids := PermissionIds(perms);
    forall q | q in perms
      ensures q.id < FreshId(ids)
    {
      var i :| 0 <= i < |perms| && perms[i] == q;
      assert ids[i] == q.id;
    }
    if Create(perms, req).result.Ok? && UniqueKeys(perms) {
      var s := Create(perms, req).state;
      forall i, j | 0 <= i < j < |s|
        ensures !SameKey(s[i], s[j])
      {
        if j == |perms| {
          assert s[i] == perms[i];
          assert perms[i] in perms;
        }
      }
    }
  }

  /** `update`: the name and the description are both overwritten, the
      description even with no value. */
  function Update(perms: seq<Permission>, id: nat, req: UpdatePermissionRequest): (s: Step<seq<Permission>, PermissionResponse>)
    ensures s.result.Err? <==> forall p :: p in perms ==> p.id != id
    ensures s.result.Err? ==> s.state == perms && s.result.error == ResourceNotFoundException(PermissionNotFoundMessage + NatToString(id))
    ensures |s.state| == |perms|
  {
    match FindPermissionById(perms, id)
    case None => Step(perms, Err(ResourceNotFoundException(PermissionNotFoundMessage + NatToString(id))))
    case Some(k) =>
      var p := perms[k].(name := req.name, description := req.description);
      Step(perms[k := p], Ok(ToResponse(p)))
  }

  /** Only name and description change: the key, and with it the authority
      string, is untouched; every other permission is unchanged; the unique
      key still holds. */
  lemma UpdateFieldRules(perms: seq<Permission>, id: nat, req: UpdatePermissionRequest)
    requires Update(perms, id, req).result.Ok?
    ensures var s := Update(perms, id, req);
      exists k :: 0 <= k < |perms| && perms[k].id == id
        && s.state[k] == perms[k].(name := req.name, description := req.description)
        && Authority(s.state[k]) == Authority(perms[k])
        && (forall j :: 0 <= j < |perms| && j != k ==> s.state[j] == perms[j])
    ensures UniqueKeys(perms) ==> UniqueKeys(Update(perms, id, req).state)
  {
    var k := FindPermissionById(perms, id).value;
    assert perms[k].id == id;
    var s := Update(perms, id, req).state;
    assert forall j :: 0 <= j < |perms| ==> SameKey(s[j], perms[j]);
  }

  /** `delete`: a missing permission is not found; one that another row
      still refers to (a role grant or a menu, so that the flush fails on
      the foreign key) is refused as in use and kept; otherwise its row is
      removed. `referenced` holds the ids other tables refer to. */
  function Delete(perms: seq<Permission>, id: nat, referenced: set<nat>): (s: Step<seq<Permission>, ()>)
    ensures s.result.Err? ==> s.state == perms
    ensures s.result.Ok? ==> |s.state| == |perms| - 1
  {
    match FindPermissionById(perms, id)
    case None => Step(perms, Err(ResourceNotFoundException(PermissionNotFoundMessage + NatToString(id))))
    case Some(k) =>
      if id in referenced then Step(perms, Err(ValidationException(PermissionInUseMessage)))
      else Step(RemoveAt(perms, k), Ok(()))
  }

  /** The outcomes of `delete`: not found exactly when no row has the id;
      in use exactly when a row has it and it is referenced; otherwise the
      permission is gone and, with unique ids, every other row stays. */
  lemma DeleteOutcomes(perms: seq<Permission>, id: nat, referenced: set<nat>)
    requires forall i, j :: 0 <= i < j < |perms| ==> perms[i].id != perms[j].id
    ensures var s := Delete(perms, id, referenced);
      && ((forall p :: p in perms ==> p.id != id) <==>
            s.result == Err(ResourceNotFoundException(PermissionNotFoundMessage + NatToString(id))))
      && ((exists p :: p in perms && p.id == id) && id in referenced <==>
            s.result == Err(ValidationException(PermissionInUseMessage)))
      && (s.result.Ok? ==> forall p :: p in perms ==> (p in s.state <==> p.id != id))
  {
    var s := Delete(perms, id, referenced);
    if s.result.Ok? {
      var k := FindPermissionById(perms, id).value;
      assert s.state == perms[..k] + perms[k + 1..];
      forall p | p in perms
        ensures p in s.state <==> p.id != id
      {
        var i :| 0 <= i < |perms| && perms[i] == p;
        if i < k {
          assert s.state[i] == p;
        } else if i > k {
          assert s.state[i - 1] == p;
        } else {
          forall j | 0 <= j < |s.state|
            ensures s.state[j] != p
          {
            if j < k {
              assert s.state[j] == perms[j];
            } else {
              assert s.state[j] == perms[j + 1];
            }
          }
        }
      }
    }
  }

  // ---------------------------------------------------------------------
  // Listings

  /** The resource of each permission, in table order. */
  function Resources(perms: seq<Permission>): seq<string> {
    Map(perms, (p: Permission) => p.resource)
  }

  /** Some permission of the table has resource `x`. */
  predicate HasResource(perms: seq<Permission>, x: string) {
    exists p :: p in perms && p.resource == x
  }

  lemma InResources(perms: seq<Permission>, x: string)
    ensures x in Resources(perms) <==> HasResource(perms, x)
  {
    var rs := Resources(perms);
    if x in rs {
      var i :| 0 <= i < |rs| && rs[i] == x;
      assert perms[i] in perms;
    }
    if HasResource(perms, x) {
      var p :| p in perms && p.resource == x;
      var i :| 0 <= i < |perms| && perms[i] == p;
      assert rs[i] == x;
    }
  }

  /** `findAllResources`: the resources, each once, in ascending order. */
  function FindAllResources(perms: seq<Permission>): (r: seq<string>)
    ensures StrictlySorted(r)
    ensures forall x :: x in r <==> HasResource(perms, x)
  {
    var r := SortedDistinct(Resources(perms));
    forall x
      ensures x in r <==> HasResource(perms, x)
    {
      InResources(perms, x);
    }
    r
  }

  /** One entry of `findAll`: a resource and its permissions. */
  datatype PermissionGroup = PermissionGroup(resource: string, permissions: seq<Permission>)

  function GroupResource(g: PermissionGroup): string { g.resource }

  /** The group `groupBy` builds for one key: the permissions with that
      resource, in table order. */
  function GroupOf(perms: seq<Permission>, key: string): PermissionGroup {
    PermissionGroup(key, Filter(perms, (q: Permission) => q.resource == key))
  }

  /** Kotlin's `groupBy { it.resource }`: one group per distinct resource, in
      order of first occurrence. */
  function GroupBy(perms: seq<Permission>): (r: seq<PermissionGroup>)
    ensures forall i, j :: 0 <= i < j < |r| ==> r[i].resource != r[j].resource
    ensures forall g :: g in r ==> g == GroupOf(perms, g.resource) && HasResource(perms, g.resource)
  {
    var keys := Dedup(Resources(perms));
    var r := seq(|keys|, i requires 0 <= i < |keys| => GroupOf(perms, keys[i]));
    forall g | g in r
      ensures HasResource(perms, g.resource)
    {
      var i :| 0 <= i < |r| && r[i] == g;
      assert keys[i] in keys;
      InResources(perms, keys[i]);
    }
    r
  }

  /** `findAll`: the groups, sorted by resource. */
  function FindAll(perms: seq<Permission>): (r: seq<PermissionGroup>)
    ensures SortedBy(r, GroupResource)
    ensures forall g :: g in r ==> g == GroupOf(perms, g.resource) && HasResource(perms, g.resource)
  {
    var groups := GroupBy(perms);
    var r := SortBy(groups, GroupResource);
    SameMultisetSameElements(r, groups);
    r
  }

  /** Every resource of the table has a group in `findAll`, and every group
      names a resource of the table. */
  lemma FindAllCoversResources(perms: seq<Permission>, x: string)
    ensures (exists g :: g in FindAll(perms) && g.resource == x) <==> HasResource(perms, x)
  {
    var groups := GroupBy(perms);
    var r := FindAll(perms);
    SameMultisetSameElements(r, groups);
    if HasResource(perms, x) {
      InResources(perms, x);
      var keys := Dedup(Resources(perms));
      var i :| 0 <= i < |keys| && keys[i] == x;
      assert groups[i].resource == x;
      assert groups[i] in groups;
    }
  }

  /** No resource has two groups in `findAll`. */
  lemma FindAllOneGroupPerResource(perms: seq<Permission>)
    ensures var r := FindAll(perms);
      forall i, j :: 0 <= i < j < |r| ==> r[i].resource != r[j].resource
  {
    var groups := GroupBy(perms);
    var r := FindAll(perms);
    assert Distinct(groups);
    SameMultisetSameElements(r, groups);
    forall i, j | 0 <= i < j < |r|
      ensures r[i].resource != r[j].resource
    {
      if r[i].resource == r[j].resource {
        assert r[i] in r && r[j] in r;
        assert r[i] == GroupOf(perms, r[i].resource) == r[j];
        RepeatedElementMultiplicity(r, i, j);
        DistinctMultiplicity(groups, r[i]);
      }
    }
  }

  /** The resources of the groups, in `findAll` order. */
  function GroupResources(groups: seq<PermissionGroup>): seq<string> {
    Map(groups, (g: PermissionGroup) => g.resource)
  }

  /** `findAllResources` lists exactly the group resources of `findAll`, in
      the same order. */
  lemma FindAllResourcesMatchesGroups(perms: seq<Permission>)
    ensures GroupResources(FindAll(perms)) == FindAllResources(perms)
  {
    var r := FindAll(perms);
    var gr := GroupResources(r);
    FindAllOneGroupPerResource(perms);
    forall i, j | 0 <= i < j < |gr|
      ensures LexLess(gr[i], gr[j])
    {
      assert LexLeq(GroupResource(r[i]), GroupResource(r[j]));
    }
    forall x
      ensures x in gr <==> x in FindAllResources(perms)
    {
      FindAllCoversResources(perms, x);
      if x in gr {
        var i :| 0 <= i < |gr| && gr[i] == x;
        assert r[i] in r;
      }
      if exists g :: g in r && g.resource == x {
        var g :| g in r && g.resource == x;
        var i :| 0 <= i < |r| && r[i] == g;
        assert gr[i] == x;
      }
    }
    StrictlySortedUnique(gr, FindAllResources(perms));
  }

  /** Each group of `findAll` holds only permissions of its resource, taken
      from the table in table order, and is never empty. */
  lemma FindAllGroupContents(perms: seq<Permission>, g: PermissionGroup)
    requires g in FindAll(perms)
    ensures forall q :: q in g.permissions ==> q in perms && q.resource == g.resource
    ensures IsSubsequence(g.permissions, perms)
    ensures |g.permissions| > 0
  {
    FilterIsSubsequence(perms, (q: Permission) => q.resource == g.resource);
    var p :| p in perms && p.resource == g.resource;
    assert p in g.permissions;
  }

  /** Every permission lands in its resource's group of `findAll`. */
  lemma FindAllPlacesEveryPermission(perms: seq<Permission>, p: Permission)
    requires p in perms
    ensures exists g :: g in FindAll(perms) && g.resource == p.resource && p in g.permissions
  {
    FindAllCoversResources(perms, p.resource);
    var g :| g in FindAll(perms) && g.resource == p.resource;
    assert p in g.permissions;
  }
}
