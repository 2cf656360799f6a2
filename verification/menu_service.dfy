/** The menu service: the full menu tree, the tree pruned to what a set of
    authorities may see, and the create/update rules on stored rows. */
module MenuService {
  import opened Seqs
  import opened Strings
  import opened Permissions
  import opened Menus
  import opened Errors
  import Store

  /** The menu response: a node's fields, its parent's id and its (possibly
      pruned) children. */
  datatype MenuView = MenuView(
    id: nat,
    name: string,
    code: string,
    path: Option<string>,
    icon: Option<string>,
    parentId: Option<nat>,
    sortOrder: int,
    isActive: bool,
    requiredPermission: Option<Permission>,
    children: seq<MenuView>)

  /** The response for `m` under the given parent with the given children:
      every field of the node copied unchanged. */
  function Node(m: Menu, parentId: Option<nat>, children: seq<MenuView>): MenuView {
    MenuView(m.id, m.name, m.code, m.path, m.icon, parentId, m.sortOrder, m.isActive,
      m.requiredPermission, children)
  }

  /** The node needs no permission, or the authority of the one it needs is
      held. */
  predicate Permits(m: Menu, auths: set<string>) {
    m.requiredPermission.None? || Authority(m.requiredPermission.value) in auths
  }

  predicate ViewPermits(v: MenuView, auths: set<string>) {
    v.requiredPermission.None? || Authority(v.requiredPermission.value) in auths
  }

  /** Soundness of a pruned tree: every node at every depth is permitted and
      every child is active. */
  predicate Sound(v: MenuView, auths: set<string>)
    decreases v
  {
    ViewPermits(v, auths)
    && forall i :: 0 <= i < |v.children| ==> v.children[i].isActive && Sound(v.children[i], auths)
  }

  // ---------------------------------------------------------------------
  // Pruning to the accessible tree

  /** `filterAccessibleMenu`: a node whose required authority is missing is
      dropped with its whole subtree; otherwise it is kept with its active
      children pruned the same way. */
  function FilterAccessibleMenu(m: Menu, parentId: Option<nat>, auths: set<string>): (r: Option<MenuView>)
    ensures r.None? <==> !Permits(m, auths)
    ensures r.Some? ==> r.value == Node(m, parentId, r.value.children)
    ensures r.Some? ==> Sound(r.value, auths)
    decreases m
  {
    if m.requiredPermission.Some? && Authority(m.requiredPermission.value) !in auths then None
    else Some(Node(m, parentId, FilterChildren(m.children, Some(m.id), auths)))
  }

  /** `.filter { it.isActive }.mapNotNull { filterAccessibleMenu(it, ...) }`
      over a sibling list, one element at a time. */
  function FilterChildren(cs: seq<Menu>, parentId: Option<nat>, auths: set<string>): (r: seq<MenuView>)
    ensures |r| <= |cs|
    ensures forall i :: 0 <= i < |r| ==> r[i].isActive && r[i].parentId == parentId && Sound(r[i], auths)
    decreases cs
  {
    if |cs| == 0 then []
    else
      (if cs[0].isActive then
         match FilterAccessibleMenu(cs[0], parentId, auths)
         case Some(v) => [v]
         case None => []
       else [])
      + FilterChildren(cs[1..], parentId, auths)
  }

  /** `findAccessibleMenus`: the root menus (no parent), filtered like any
      sibling list. */
  function FindAccessibleMenus(roots: seq<Menu>, auths: set<string>): (r: seq<MenuView>)
    ensures forall i :: 0 <= i < |r| ==> r[i].isActive && r[i].parentId.None? && Sound(r[i], auths)
  {
    FilterChildren(roots, None, auths)
  }

  /** No over-pruning: every active, permitted sibling appears in the output
      as its own pruned copy. */
  lemma {:induction false} FilterChildrenKeepsVisible(cs: seq<Menu>, parentId: Option<nat>, auths: set<string>, i: nat)
    requires i < |cs| && cs[i].isActive && Permits(cs[i], auths)
    ensures FilterAccessibleMenu(cs[i], parentId, auths).Some?
    ensures FilterAccessibleMenu(cs[i], parentId, auths).value in FilterChildren(cs, parentId, auths)
  {
    if i > 0 {
      FilterChildrenKeepsVisible(cs[1..], parentId, auths, i - 1);
    }
  }

  // ---------------------------------------------------------------------
  // Codes: what a tree contains

  function MenuCodes(m: Menu): set<string>
    decreases m
  {
    {m.code} + ForestCodes(m.children)
  }

  function ForestCodes(cs: seq<Menu>): set<string>
    decreases cs
  {
    if |cs| == 0 then {} else MenuCodes(cs[0]) + ForestCodes(cs[1..])
  }

  function ViewCodes(v: MenuView): set<string>
    decreases v
  {
    {v.code} + ViewForestCodes(v.children)
  }

  function ViewForestCodes(vs: seq<MenuView>): set<string>
    decreases vs
  {
    if |vs| == 0 then {} else ViewCodes(vs[0]) + ViewForestCodes(vs[1..])
  }

  function OptionCodes(o: Option<MenuView>): set<string> {
    if o.Some? then ViewCodes(o.value) else {}
  }

  /** The menu code column is unique: no code occurs twice in a tree. */
  predicate UniqueCodes(m: Menu)
    decreases m
  {
    m.code !in ForestCodes(m.children) && UniqueForestCodes(m.children)
  }

  predicate UniqueForestCodes(cs: seq<Menu>)
    decreases cs
  {
    |cs| == 0 || (MenuCodes(cs[0]) !! ForestCodes(cs[1..]) && UniqueCodes(cs[0]) && UniqueForestCodes(cs[1..]))
  }

  /** `d` is `m` or one of its descendants. */
  predicate InTree(d: Menu, m: Menu)
    decreases m
  {
    d == m || InForest(d, m.children)
  }

  predicate InForest(d: Menu, cs: seq<Menu>)
    decreases cs
  {
    |cs| > 0 && (InTree(d, cs[0]) || InForest(d, cs[1..]))
  }

  lemma {:induction false} SubtreeCodes(d: Menu, m: Menu)
    requires InTree(d, m)
    ensures MenuCodes(d) <= MenuCodes(m)
    decreases m
  {
    if d != m {
      SubforestCodes(d, m.children);
    }
  }

  lemma {:induction false} SubforestCodes(d: Menu, cs: seq<Menu>)
    requires InForest(d, cs)
    ensures MenuCodes(d) <= ForestCodes(cs)
    decreases cs
  {
    if InTree(d, cs[0]) {
      SubtreeCodes(d, cs[0]);
    } else {
      SubforestCodes(d, cs[1..]);
    }
  }

  /** The pruned tree only holds codes of the input tree. */
  lemma {:induction false} FilterCodesWithin(m: Menu, parentId: Option<nat>, auths: set<string>)
    ensures OptionCodes(FilterAccessibleMenu(m, parentId, auths)) <= MenuCodes(m)
    decreases m
  {
    if Permits(m, auths) {
      FilterChildrenCodesWithin(m.children, Some(m.id), auths);
    }
  }

  lemma {:induction false} FilterChildrenCodesWithin(cs: seq<Menu>, parentId: Option<nat>, auths: set<string>)
    ensures ViewForestCodes(FilterChildren(cs, parentId, auths)) <= ForestCodes(cs)
    decreases cs
  {
    if |cs| > 0 {
      FilterCodesWithin(cs[0], parentId, auths);
      FilterChildrenCodesWithin(cs[1..], parentId, auths);
      ViewForestCodesAppend(HeadPart(cs, parentId, auths), FilterChildren(cs[1..], parentId, auths));
    }
  }

  /** The part of `FilterChildren` contributed by the first sibling. */
  function HeadPart(cs: seq<Menu>, parentId: Option<nat>, auths: set<string>): (r: seq<MenuView>)
    requires |cs| > 0
    ensures FilterChildren(cs, parentId, auths) == r + FilterChildren(cs[1..], parentId, auths)
    ensures ViewForestCodes(r) == if cs[0].isActive then OptionCodes(FilterAccessibleMenu(cs[0], parentId, auths)) else {}
  {
    var r := if cs[0].isActive then
      match FilterAccessibleMenu(cs[0], parentId, auths)
      case Some(v) => [v]
      case None => []
    else [];
    assert |r| == 1 ==> ViewForestCodes(r) == ViewCodes(r[0]) + ViewForestCodes(r[1..]);
    r
  }

  lemma {:induction false} ViewForestCodesAppend(a: seq<MenuView>, b: seq<MenuView>)
    ensures ViewForestCodes(a + b) == ViewForestCodes(a) + ViewForestCodes(b)
    decreases |a|
  {
    if |a| == 0 {
      assert a + b == b;
    } else {
      assert (a + b)[1..] == a[1..] + b;
      ViewForestCodesAppend(a[1..], b);
    }
  }

  /** Ancestor gating: when a node of the tree is denied, no code of its
      subtree appears in the result, not even a descendant that needs no
      permission itself. */
  lemma {:induction false} DeniedSubtreeIsHidden(m: Menu, d: Menu, parentId: Option<nat>, auths: set<string>)
    requires UniqueCodes(m)
    requires InTree(d, m) && !Permits(d, auths)
    ensures MenuCodes(d) !! OptionCodes(FilterAccessibleMenu(m, parentId, auths))
    decreases m
  {
    if d != m && Permits(m, auths) {
      DeniedSubforestIsHidden(m.children, d, Some(m.id), auths);
      SubforestCodes(d, m.children);
    }
  }

  lemma {:induction false} DeniedSubforestIsHidden(cs: seq<Menu>, d: Menu, parentId: Option<nat>, auths: set<string>)
    requires UniqueForestCodes(cs)
    requires InForest(d, cs) && !Permits(d, auths)
    ensures MenuCodes(d) !! ViewForestCodes(FilterChildren(cs, parentId, auths))
    decreases cs
  {
    var head := HeadPart(cs, parentId, auths);
    var rest := FilterChildren(cs[1..], parentId, auths);
    ViewForestCodesAppend(head, rest);
    if InTree(d, cs[0]) {
      DeniedSubtreeIsHidden(cs[0], d, parentId, auths);
      SubtreeCodes(d, cs[0]);
      FilterChildrenCodesWithin(cs[1..], parentId, auths);
    } else {
      DeniedSubforestIsHidden(cs[1..], d, parentId, auths);
      SubforestCodes(d, cs[1..]);
      FilterCodesWithin(cs[0], parentId, auths);
    }
  }

  /** The same gating for the whole accessible menu list. */
  lemma DeniedMenuIsHidden(roots: seq<Menu>, d: Menu, auths: set<string>)
    requires UniqueForestCodes(roots)
    requires InForest(d, roots) && !Permits(d, auths)
    ensures MenuCodes(d) !! ViewForestCodes(FindAccessibleMenus(roots, auths))
  {
    DeniedSubforestIsHidden(roots, d, None, auths);
  }

  /** Monotonicity: more authorities never hide a node that fewer authorities
      showed. */
  lemma {:induction false} FilterIsMonotone(m: Menu, parentId: Option<nat>, a: set<string>, b: set<string>)
    requires a <= b
    ensures FilterAccessibleMenu(m, parentId, a).Some? ==> FilterAccessibleMenu(m, parentId, b).Some?
    ensures OptionCodes(FilterAccessibleMenu(m, parentId, a)) <= OptionCodes(FilterAccessibleMenu(m, parentId, b))
    decreases m
  {
    if Permits(m, a) {
      FilterChildrenIsMonotone(m.children, Some(m.id), a, b);
    }
  }

  lemma {:induction false} FilterChildrenIsMonotone(cs: seq<Menu>, parentId: Option<nat>, a: set<string>, b: set<string>)
    requires a <= b
    ensures ViewForestCodes(FilterChildren(cs, parentId, a)) <= ViewForestCodes(FilterChildren(cs, parentId, b))
    decreases cs
  {
    if |cs| > 0 {
      FilterIsMonotone(cs[0], parentId, a, b);
      FilterChildrenIsMonotone(cs[1..], parentId, a, b);
      ViewForestCodesAppend(HeadPart(cs, parentId, a), FilterChildren(cs[1..], parentId, a));
      ViewForestCodesAppend(HeadPart(cs, parentId, b), FilterChildren(cs[1..], parentId, b));
    }
  }

  lemma AccessibleMenusAreMonotone(roots: seq<Menu>, a: set<string>, b: set<string>)
    requires a <= b
    ensures ViewForestCodes(FindAccessibleMenus(roots, a)) <= ViewForestCodes(FindAccessibleMenus(roots, b))
  {
    FilterChildrenIsMonotone(roots, None, a, b);
  }

  // ---------------------------------------------------------------------
  // Order of siblings

  /** The (id, code, sort order) of each sibling, in list order. */
  function Heads(cs: seq<Menu>): seq<(nat, string, int)> {
    Map(cs, (m: Menu) => (m.id, m.code, m.sortOrder))
  }

  /** The same triple for response nodes. */
  function ViewHeads(vs: seq<MenuView>): seq<(nat, string, int)> {
    Map(vs, (v: MenuView) => (v.id, v.code, v.sortOrder))
  }

  /** Each output sibling list is an order-preserving subsequence of the
      input sibling list. */
  lemma {:induction false} FilterChildrenPreservesOrder(cs: seq<Menu>, parentId: Option<nat>, auths: set<string>)
    ensures IsSubsequence(ViewHeads(FilterChildren(cs, parentId, auths)), Heads(cs))
    decreases cs
  {
    if |cs| > 0 {
      var out := FilterChildren(cs, parentId, auths);
      var rest := FilterChildren(cs[1..], parentId, auths);
      FilterChildrenPreservesOrder(cs[1..], parentId, auths);
      assert Heads(cs)[1..] == Heads(cs[1..]);
      var head := HeadPart(cs, parentId, auths);
      if |head| == 1 {
        assert out == [head[0]] + rest;
        assert ViewHeads(out)[1..] == ViewHeads(rest);
        assert ViewHeads(out)[0] == Heads(cs)[0];
      } else {
        assert out == rest;
        if |ViewHeads(out)| > 0 {
          SubsequenceSkip(ViewHeads(out), Heads(cs));
        }
      }
    }
  }

  predicate SortedBySortOrder(hs: seq<(nat, string, int)>) {
    forall i, j :: 0 <= i < j < |hs| ==> hs[i].2 <= hs[j].2
  }

  /** A subsequence of a list sorted by sort order is sorted by sort order. */
  lemma {:induction false} SubsequenceKeepsSorted(a: seq<(nat, string, int)>, b: seq<(nat, string, int)>)
    requires IsSubsequence(a, b) && SortedBySortOrder(b)
    ensures SortedBySortOrder(a)
    decreases |b|
  {
    if |a| > 0 {
      if a[0] == b[0] {
        SubsequenceKeepsSorted(a[1..], b[1..]);
        SubsequenceElements(a[1..], b[1..]);
        forall j | 0 < j < |a|
          ensures a[0].2 <= a[j].2
        {
          assert a[j] in a[1..];
          var k :| 0 <= k < |b[1..]| && b[1..][k] == a[j];
          assert b[k + 1] == a[j];
        }
      } else {
        SubsequenceKeepsSorted(a, b[1..]);
      }
    }
  }

  /** Input sorted by sort order (the query's `ORDER BY sortOrder`) stays
      sorted after pruning. */
  lemma FilterChildrenKeepsSortOrder(cs: seq<Menu>, parentId: Option<nat>, auths: set<string>)
    requires SortedBySortOrder(Heads(cs))
    ensures SortedBySortOrder(ViewHeads(FilterChildren(cs, parentId, auths)))
  {
    FilterChildrenPreservesOrder(cs, parentId, auths);
    SubsequenceKeepsSorted(ViewHeads(FilterChildren(cs, parentId, auths)), Heads(cs));
  }

  // ---------------------------------------------------------------------
  // The full tree

  /** `toResponseWithChildren`: every node and every child, unfiltered. */
  function ToResponseWithChildren(m: Menu, parentId: Option<nat>): (v: MenuView)
    ensures v == Node(m, parentId, v.children) && |v.children| == |m.children|
    decreases m
  {
    Node(m, parentId, ToResponsesWithChildren(m.children, Some(m.id)))
  }

  function ToResponsesWithChildren(cs: seq<Menu>, parentId: Option<nat>): (r: seq<MenuView>)
    ensures |r| == |cs|
    ensures forall i :: 0 <= i < |cs| ==> r[i].parentId == parentId
    decreases cs
  {
    if |cs| == 0 then []
    else [ToResponseWithChildren(cs[0], parentId)] + ToResponsesWithChildren(cs[1..], parentId)
  }

  /** `findAllTree`. */
  function FindAllTree(roots: seq<Menu>): (r: seq<MenuView>)
    ensures |r| == |roots|
  {
    ToResponsesWithChildren(roots, None)
  }

  /** Back from a response to the menu it describes (forgetting the parent
      id). */
  function ViewToMenu(v: MenuView): Menu
    decreases v
  {
    Menu(v.id, v.name, v.code, v.path, v.icon, v.sortOrder, v.isActive, v.requiredPermission,
      ViewsToMenus(v.children))
  }

  function ViewsToMenus(vs: seq<MenuView>): (r: seq<Menu>)
    ensures |r| == |vs|
    decreases vs
  {
    if |vs| == 0 then [] else [ViewToMenu(vs[0])] + ViewsToMenus(vs[1..])
  }

  /** The full tree loses nothing: reading a response back gives the menu
      with every field and every child. */
  lemma {:induction false} FullTreeRoundTrip(m: Menu, parentId: Option<nat>)
    ensures ViewToMenu(ToResponseWithChildren(m, parentId)) == m
    decreases m
  {
    FullForestRoundTrip(m.children, Some(m.id));
  }

  lemma {:induction false} FullForestRoundTrip(cs: seq<Menu>, parentId: Option<nat>)
    ensures ViewsToMenus(ToResponsesWithChildren(cs, parentId)) == cs
    decreases cs
  {
    if |cs| > 0 {
      FullTreeRoundTrip(cs[0], parentId);
      FullForestRoundTrip(cs[1..], parentId);
      assert cs == [cs[0]] + cs[1..];
    }
  }

  lemma FindAllTreeRoundTrip(roots: seq<Menu>)
    ensures ViewsToMenus(FindAllTree(roots)) == roots
  {
    FullForestRoundTrip(roots, None);
  }

  /** Every node is permitted and every child active. */
  predicate FullyVisible(m: Menu, auths: set<string>)
    decreases m
  {
    Permits(m, auths) && forall i :: 0 <= i < |m.children| ==> m.children[i].isActive && FullyVisible(m.children[i], auths)
  }

  /** When nothing in a tree is inactive or denied, pruning keeps the whole
      tree: the accessible tree coincides with the full tree. */
  lemma {:induction false} FullyVisibleTreeIsUnpruned(m: Menu, parentId: Option<nat>, auths: set<string>)
    requires FullyVisible(m, auths)
    ensures FilterAccessibleMenu(m, parentId, auths) == Some(ToResponseWithChildren(m, parentId))
    decreases m
  {
    FullyVisibleForestIsUnpruned(m.children, Some(m.id), auths);
  }

  lemma {:induction false} FullyVisibleForestIsUnpruned(cs: seq<Menu>, parentId: Option<nat>, auths: set<string>)
    requires forall i :: 0 <= i < |cs| ==> cs[i].isActive && FullyVisible(cs[i], auths)
    ensures FilterChildren(cs, parentId, auths) == ToResponsesWithChildren(cs, parentId)
    decreases cs
  {
    if |cs| > 0 {
      FullyVisibleTreeIsUnpruned(cs[0], parentId, auths);
      FullyVisibleForestIsUnpruned(cs[1..], parentId, auths);
    }
  }

  // ---------------------------------------------------------------------
  // Create and update on stored rows

  const DuplicateMenuCodeMessage: string := "이미 존재하는 메뉴 코드입니다: "
  const ParentMenuNotFoundMessage: string := "상위 메뉴를 찾을 수 없습니다: "
  const PermissionNotFoundMessage: string := "권한을 찾을 수 없습니다: "
  const MenuNotFoundMessage: string := "메뉴를 찾을 수 없습니다: "

  datatype CreateMenuRequest = CreateMenuRequest(
    name: string,
    code: string,
    path: Option<string>,
    icon: Option<string>,
    parentId: Option<nat>,
    sortOrder: int,
    permissionId: Option<nat>)

  datatype UpdateMenuRequest = UpdateMenuRequest(
    name: string,
    path: Option<string>,
    icon: Option<string>,
    parentId: Option<nat>,
    sortOrder: Option<int>,
    isActive: Option<bool>,
    permissionId: Option<nat>)

  function FindMenuRow(rows: seq<MenuRow>, id: nat): (r: Option<nat>)
    ensures r.Some? ==> r.value < |rows| && rows[r.value].id == id
    ensures r.None? <==> forall row :: row in rows ==> row.id != id
  {
    IndexWhere(rows, (row: MenuRow) => row.id == id)
  }

  predicate CodeTaken(rows: seq<MenuRow>, code: string) {
    exists row :: row in rows && row.code == code
  }

  predicate HasPermission(perms: seq<Permission>, id: nat) {
    exists p :: p in perms && p.id == id
  }

  function CodeInUse(rows: seq<MenuRow>, code: string): (b: bool)
    ensures b <==> CodeTaken(rows, code)
  {
    IndexWhere(rows, (row: MenuRow) => row.code == code).Some?
  }

  function PermissionExists(perms: seq<Permission>, id: nat): (b: bool)
    ensures b <==> HasPermission(perms, id)
  {
    IndexWhere(perms, (p: Permission) => p.id == id).Some?
  }

  /** `create`: a taken code is a conflict; a named parent or permission that
      does not exist is not found; otherwise one active row is appended. */
  function Create(rows: seq<MenuRow>, perms: seq<Permission>, req: CreateMenuRequest): (s: Step<seq<MenuRow>, MenuRow>)
    ensures s.result.Err? ==> s.state == rows
    ensures s.result.Ok? ==> s.state == rows + [s.result.value]
  {
    if CodeInUse(rows, req.code) then
      Step(rows, Err(DuplicateException(DuplicateMenuCodeMessage + req.code)))
    else if req.parentId.Some? && FindMenuRow(rows, req.parentId.value).None? then
      Step(rows, Err(ResourceNotFoundException(ParentMenuNotFoundMessage + NatToString(req.parentId.value))))
    else if req.permissionId.Some? && !PermissionExists(perms, req.permissionId.value) then
      Step(rows, Err(ResourceNotFoundException(PermissionNotFoundMessage + NatToString(req.permissionId.value))))
    else
      var row := MenuRow(Store.FreshId(Store.MenuIds(rows)), req.name, req.code, req.path, req.icon, req.parentId,
        req.sortOrder, true, req.permissionId);
      Step(rows + [row], Ok(row))
  }

  /** The outcomes of `create`, in the order the checks run. */
  lemma CreateOutcomes(rows: seq<MenuRow>, perms: seq<Permission>, req: CreateMenuRequest)
    ensures CodeTaken(rows, req.code) ==>
      Create(rows, perms, req).result == Err(DuplicateException(DuplicateMenuCodeMessage + req.code))
    ensures Create(rows, perms, req).result.Ok? <==>
      !CodeTaken(rows, req.code)
      && (req.parentId.Some? ==> exists row :: row in rows && row.id == req.parentId.value)
      && (req.permissionId.Some? ==> HasPermission(perms, req.permissionId.value))
    ensures Create(rows, perms, req).result.Ok? ==>
      var row := Create(rows, perms, req).result.value;
      && row.name == req.name && row.code == req.code && row.path == req.path && row.icon == req.icon
      && row.parentId == req.parentId && row.sortOrder == req.sortOrder && row.isActive
      && row.permissionId == req.permissionId
      && forall prev :: prev in rows ==> prev.id != row.id
  {
  }

  /** A provided value replaces the current one; an absent one keeps it. */
  function Overlay<T>(provided: Option<T>, current: T): T {
    if provided.Some? then provided.value else current
  }

  /** `update`: the name is always overwritten; path, icon, sort order and the
      active flag only when provided; parent and permission only when
      provided and found. */
  function Update(rows: seq<MenuRow>, perms: seq<Permission>, id: nat, req: UpdateMenuRequest): (s: Step<seq<MenuRow>, MenuRow>)
    ensures s.result.Err? ==> s.state == rows
    ensures s.result.Ok? ==> exists k :: 0 <= k < |rows| && rows[k].id == id && s.state == rows[k := s.result.value]
  {
    match FindMenuRow(rows, id)
    case None => Step(rows, Err(ResourceNotFoundException(MenuNotFoundMessage + NatToString(id))))
    case Some(k) =>
      var row := rows[k];
      if req.parentId.Some? && FindMenuRow(rows, req.parentId.value).None? then
        Step(rows, Err(ResourceNotFoundException(ParentMenuNotFoundMessage + NatToString(req.parentId.value))))
      else if req.permissionId.Some? && !PermissionExists(perms, req.permissionId.value) then
        Step(rows, Err(ResourceNotFoundException(PermissionNotFoundMessage + NatToString(req.permissionId.value))))
      else
        var updated := row.(
          name := req.name,
          path := if req.path.Some? then req.path else row.path,
          icon := if req.icon.Some? then req.icon else row.icon,
          sortOrder := Overlay(req.sortOrder, row.sortOrder),
          isActive := Overlay(req.isActive, row.isActive),
          parentId := if req.parentId.Some? then req.parentId else row.parentId,
          permissionId := if req.permissionId.Some? then req.permissionId else row.permissionId);
        Step(rows[k := updated], Ok(updated))
  }

  /** The field rules of `update`: id and code kept, the name replaced, each
      optional field replaced when the request provides it and kept
      otherwise. */
  predicate UpdatedPerRequest(before: MenuRow, after: MenuRow, req: UpdateMenuRequest) {
    && after.id == before.id && after.code == before.code && after.name == req.name
    && (req.path.None? ==> after.path == before.path) && (req.path.Some? ==> after.path == req.path)
    && (req.icon.None? ==> after.icon == before.icon) && (req.icon.Some? ==> after.icon == req.icon)
    && (req.sortOrder.None? ==> after.sortOrder == before.sortOrder)
    && (req.sortOrder.Some? ==> after.sortOrder == req.sortOrder.value)
    && (req.isActive.None? ==> after.isActive == before.isActive)
    && (req.isActive.Some? ==> after.isActive == req.isActive.value)
    && (req.parentId.None? ==> after.parentId == before.parentId)
    && (req.parentId.Some? ==> after.parentId == req.parentId)
    && (req.permissionId.None? ==> after.permissionId == before.permissionId)
    && (req.permissionId.Some? ==> after.permissionId == req.permissionId)
  }

  /** On success, the first row with the id is replaced by a row that follows
      the field rules. */
  lemma UpdateFieldRules(rows: seq<MenuRow>, perms: seq<Permission>, id: nat, req: UpdateMenuRequest)
    requires Update(rows, perms, id, req).result.Ok?
    ensures var s := Update(rows, perms, id, req);
      exists k :: 0 <= k < |rows| && rows[k].id == id && UpdatedPerRequest(rows[k], s.result.value, req) && s.state == rows[k := s.result.value]
  {
    var k := FindMenuRow(rows, id).value;
    assert rows[k].id == id;
  }

  /** Updating a missing menu is not found and changes nothing. */
  lemma UpdateMissingMenu(rows: seq<MenuRow>, perms: seq<Permission>, id: nat, req: UpdateMenuRequest)
    requires forall row :: row in rows ==> row.id != id
    ensures Update(rows, perms, id, req) == Step(rows, Err(ResourceNotFoundException(MenuNotFoundMessage + NatToString(id))))
  {
  }

  /** `delete`: a missing menu is not found; otherwise its row is removed and
      every other row stays, in order. */
  function Delete(rows: seq<MenuRow>, id: nat): (s: Step<seq<MenuRow>, ()>)
    ensures s.result.Err? <==> forall row :: row in rows ==> row.id != id
    ensures s.result.Err? ==> s.state == rows
    ensures s.result.Err? ==> s.result.error == ResourceNotFoundException(MenuNotFoundMessage + NatToString(id))
    ensures s.result.Ok? ==> |s.state| == |rows| - 1
    ensures s.result.Ok? ==> exists k :: 0 <= k < |rows| && rows[k].id == id && s.state == rows[..k] + rows[k + 1..]
  {
    match FindMenuRow(rows, id)
    case None => Step(rows, Err(ResourceNotFoundException(MenuNotFoundMessage + NatToString(id))))
    case Some(k) => Step(RemoveAt(rows, k), Ok(()))
  }
}
