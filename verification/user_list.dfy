/** The paged user-list query: the optional search conditions, and the
    aggregation of the flat (user, role) join rows into one list item per
    user, in the order of the page's user ids. The three database queries
    themselves are inputs: their rows are parameters. */
module UserList {
  import opened Seqs
  import opened Strings
  import opened Roles

  // ---------------------------------------------------------------------
  // Conditions

  /** The predicates the query can carry: keyword on email or name, role
      code, active flag. */
  datatype Condition =
    | KeywordCondition(keyword: string)
    | RoleCodeCondition(code: string)
    | ActiveCondition(active: bool)

  /** `buildConditions`: one condition per filter the caller actually gave. */
  function BuildConditions(keyword: Option<string>, roleCode: Option<string>, isActive: Option<bool>): (r: seq<Condition>)
    ensures |r| <= 3
  {
    (if !IsNullOrBlank(keyword) then [KeywordCondition(keyword.value)] else [])
    + (if !IsNullOrBlank(roleCode) then [RoleCodeCondition(roleCode.value)] else [])
    + (if isActive.Some? then [ActiveCondition(isActive.value)] else [])
  }

  /** Each condition is present exactly when its filter was given: a
      keyword or role code that is neither null nor blank, an active flag
      that is not null; the three appear in that order, once each. */
  lemma BuildConditionsRules(keyword: Option<string>, roleCode: Option<string>, isActive: Option<bool>)
    ensures var r := BuildConditions(keyword, roleCode, isActive);
      && (keyword.Some? && KeywordCondition(keyword.value) in r <==> !IsNullOrBlank(keyword))
      && (roleCode.Some? && RoleCodeCondition(roleCode.value) in r <==> !IsNullOrBlank(roleCode))
      && (isActive.Some? && ActiveCondition(isActive.value) in r <==> isActive.Some?)
      && |r| == (if !IsNullOrBlank(keyword) then 1 else 0) + (if !IsNullOrBlank(roleCode) then 1 else 0)
               + (if isActive.Some? then 1 else 0)
    ensures forall c :: c in BuildConditions(keyword, roleCode, isActive) ==>
      (c.KeywordCondition? ==> keyword == Some(c.keyword))
      && (c.RoleCodeCondition? ==> roleCode == Some(c.code))
      && (c.ActiveCondition? ==> isActive == Some(c.active))
  {
  }

  // ---------------------------------------------------------------------
  // Join rows and their reference aggregation

  /** One row of the (user LEFT JOIN role) projection; every column may be
      null. */
  datatype Tuple = Tuple(
    userId: Option<nat>,
    email: Option<string>,
    name: Option<string>,
    isActive: Option<bool>,
    roleId: Option<nat>,
    roleCode: Option<string>,
    roleName: Option<string>)

  /** The per-user accumulator. */
  datatype Aggregate = Aggregate(id: nat, email: string, name: string, isActive: bool, roles: seq<RoleSummary>)

  function OrEmpty(s: Option<string>): string {
    if s.Some? then s.value else ""
  }

  /** The role summary a row with a role id contributes. */
  function RoleOf(t: Tuple): RoleSummary
    requires t.roleId.Some?
  {
    RoleSummary(t.roleId.value, OrEmpty(t.roleCode), OrEmpty(t.roleName))
  }

  /** The rows of one user, in row order. */
  function Mine(ts: seq<Tuple>, id: nat): seq<Tuple> {
    Filter(ts, (t: Tuple) => t.userId == Some(id))
  }

  /** The role summaries of the rows that carry a role id, in row order. */
  function RoleRows(ts: seq<Tuple>): seq<RoleSummary> {
    if |ts| == 0 then []
    else RoleRows(ts[..|ts| - 1]) + (if ts[|ts| - 1].roleId.Some? then [RoleOf(ts[|ts| - 1])] else [])
  }

  /** The summaries are exactly those of the rows that carry a role id. */
  lemma {:induction false} RoleRowsAreRoleOf(ts: seq<Tuple>)
    ensures forall x :: x in RoleRows(ts) ==> exists t :: t in ts && t.roleId.Some? && x == RoleOf(t)
    ensures forall t :: t in ts && t.roleId.Some? ==> RoleOf(t) in RoleRows(ts)
  {
    if |ts| > 0 {
      var init := ts[..|ts| - 1];
      RoleRowsAreRoleOf(init);
      assert forall t :: t in ts <==> t in init || t == ts[|ts| - 1];
    }
  }

  /** A summary with this id is already listed. */
  predicate ListsRole(rs: seq<RoleSummary>, id: nat) {
    exists x :: x in rs && x.id == id
  }

  /** `putIfAbsent` into the insertion-ordered role map, for a run of
      summaries: the first summary seen for each role id, in the order those
      ids first appear. */
  function FirstById(rs: seq<RoleSummary>): seq<RoleSummary> {
    if |rs| == 0 then []
    else
      var r := FirstById(rs[..|rs| - 1]);
      if ListsRole(r, rs[|rs| - 1].id) then r else r + [rs[|rs| - 1]]
  }

  /** The kept summaries come from the run, have distinct ids, and cover
      every id of the run. */
  lemma {:induction false} FirstByIdIsDedup(rs: seq<RoleSummary>)
    ensures forall x :: x in FirstById(rs) ==> x in rs
    ensures forall i, j :: 0 <= i < j < |FirstById(rs)| ==> FirstById(rs)[i].id != FirstById(rs)[j].id
    ensures forall id :: ListsRole(FirstById(rs), id) <==> ListsRole(rs, id)
  {
    if |rs| > 0 {
      var init := rs[..|rs| - 1];
      var last := rs[|rs| - 1];
      var r := FirstById(init);
      FirstByIdIsDedup(init);
      assert forall x :: x in rs <==> x in init || x == last;
      if !ListsRole(r, last.id) {
        assert forall i :: 0 <= i < |r| ==> r[i] in r;
        forall id
          ensures ListsRole(r + [last], id) <==> ListsRole(rs, id)
        {
          if ListsRole(r + [last], id) {
            var x :| x in r + [last] && x.id == id;
            if x in r {
              assert ListsRole(init, id);
            }
          }
          if ListsRole(rs, id) {
            var x :| x in rs && x.id == id;
            if x in init {
              assert ListsRole(r, id);
            } else {
              assert x in r + [last];
            }
          }
        }
      } else {
        forall id
          ensures ListsRole(r, id) <==> ListsRole(rs, id)
        {
          if ListsRole(rs, id) {
            var x :| x in rs && x.id == id;
            if x in init {
              assert ListsRole(init, id);
            }
          }
        }
      }
    }
  }

  /** Each kept summary is the first one in the run with its id. */
  lemma {:induction false} FirstByIdKeepsFirst(rs: seq<RoleSummary>, x: RoleSummary)
    requires x in FirstById(rs)
    ensures exists k :: 0 <= k < |rs| && rs[k] == x && forall j :: 0 <= j < k ==> rs[j].id != x.id
  {
    var init := rs[..|rs| - 1];
    var last := rs[|rs| - 1];
    FirstByIdIsDedup(init);
    if x in FirstById(init) {
      FirstByIdKeepsFirst(init, x);
      var k :| 0 <= k < |init| && init[k] == x && forall j :: 0 <= j < k ==> init[j].id != x.id;
      assert rs[k] == x;
    } else {
      assert x == last && !ListsRole(FirstById(init), last.id);
      forall j | 0 <= j < |rs| - 1
        ensures rs[j].id != x.id
      {
        assert init[j] in init;
      }
    }
  }

  /** What the aggregation should produce for a user with at least one row:
      email, name and active flag from the user's first row (empty string or
      false for a null column), and the user's roles, once per role id. */
  function Expected(ts: seq<Tuple>, id: nat): (a: Aggregate)
    requires |Mine(ts, id)| > 0
    ensures a.id == id
  {
    var first := Mine(ts, id)[0];
    Aggregate(id, OrEmpty(first.email), OrEmpty(first.name),
      first.isActive.Some? && first.isActive.value, FirstById(RoleRows(Mine(ts, id))))
  }

  /** Some row names the user. */
  predicate HasRows(ts: seq<Tuple>, id: nat) {
    exists k :: 0 <= k < |ts| && ts[k].userId == Some(id)
  }

  lemma HasRowsIsMine(ts: seq<Tuple>, id: nat)
    ensures HasRows(ts, id) <==> |Mine(ts, id)| > 0
  {
    if HasRows(ts, id) {
      var k :| 0 <= k < |ts| && ts[k].userId == Some(id);
      assert ts[k] in Mine(ts, id);
    }
    if |Mine(ts, id)| > 0 {
      assert Mine(ts, id)[0] in Mine(ts, id);
      var k :| 0 <= k < |ts| && ts[k] == Mine(ts, id)[0];
    }
  }

  /** One more row extends that user's rows and nobody else's. */
  lemma MineAppend(ts: seq<Tuple>, t: Tuple, id: nat)
    ensures Mine(ts + [t], id) == Mine(ts, id) + (if t.userId == Some(id) then [t] else [])
  {
    FilterAppend(ts, [t], (u: Tuple) => u.userId == Some(id));
    assert [t][1..] == [];
  }

  lemma RoleRowsAppend(ts: seq<Tuple>, t: Tuple)
    ensures RoleRows(ts + [t]) == RoleRows(ts) + (if t.roleId.Some? then [RoleOf(t)] else [])
  {
    assert (ts + [t])[..|ts|] == ts;
  }

  lemma FirstByIdAppend(rs: seq<RoleSummary>, x: RoleSummary)
    ensures FirstById(rs + [x]) == if ListsRole(FirstById(rs), x.id) then FirstById(rs) else FirstById(rs) + [x]
  {
    assert (rs + [x])[..|rs|] == rs;
  }

  /** The accumulator after the user's first row: its columns, and its role
      if it has one. */
  function Start(t: Tuple): Aggregate
    requires t.userId.Some?
  {
    Aggregate(t.userId.value, OrEmpty(t.email), OrEmpty(t.name), t.isActive.Some? && t.isActive.value, [])
  }

  /** The role step of the loop body. */
  function PutRole(a: Aggregate, t: Tuple): Aggregate {
    if t.roleId.Some? && !ListsRole(a.roles, t.roleId.value) then a.(roles := a.roles + [RoleOf(t)]) else a
  }

  /** One more row gives the user rows exactly when it is the user's or
      the user had rows already. */
  lemma MineGrows(ts: seq<Tuple>, t: Tuple, id: nat)
    ensures |Mine(ts + [t], id)| > 0 <==> |Mine(ts, id)| > 0 || t.userId == Some(id)
  {
    MineAppend(ts, t, id);
  }

  /** Another user's row leaves the user's expected aggregate as it was. */
  lemma ExpectedOther(ts: seq<Tuple>, t: Tuple, id: nat)
    requires t.userId != Some(id) && |Mine(ts, id)| > 0
    ensures |Mine(ts + [t], id)| > 0 && Expected(ts + [t], id) == Expected(ts, id)
  {
    MineAppend(ts, t, id);
    assert Mine(ts + [t], id) == Mine(ts, id);
  }

  /** The user's first row starts the accumulator from its own columns,
      then takes the role step. */
  lemma ExpectedFirst(ts: seq<Tuple>, t: Tuple, id: nat)
    requires t.userId == Some(id) && |Mine(ts, id)| == 0
    ensures |Mine(ts + [t], id)| > 0 && Expected(ts + [t], id) == PutRole(Start(t), t)
  {
    MineAppend(ts, t, id);
    assert Mine(ts + [t], id) == [t];
    assert [t][..0] == [];
    if t.roleId.Some? {
      assert RoleRows([t]) == [RoleOf(t)];
      assert [RoleOf(t)][..0] == [];
      assert FirstById([RoleOf(t)]) == [RoleOf(t)];
    } else {
      assert RoleRows([t]) == [];
    }
  }

  /** A later row of the user keeps the columns and takes the role step. */
  lemma ExpectedNext(ts: seq<Tuple>, t: Tuple, id: nat)
    requires t.userId == Some(id) && |Mine(ts, id)| > 0
    ensures |Mine(ts + [t], id)| > 0 && Expected(ts + [t], id) == PutRole(Expected(ts, id), t)
  {
    MineAppend(ts, t, id);
    var m := Mine(ts, id);
    var m2 := Mine(ts + [t], id);
    assert m2 == m + [t];
    assert m2[0] == m[0];
    var a, b := Expected(ts, id), Expected(ts + [t], id);
    assert b.roles == FirstById(RoleRows(m2)) && a.roles == FirstById(RoleRows(m));
    RoleRowsAppend(m, t);
    if t.roleId.Some? {
      FirstByIdAppend(RoleRows(m), RoleOf(t));
      assert b.roles == if ListsRole(a.roles, t.roleId.value) then a.roles else a.roles + [RoleOf(t)];
    } else {
      assert RoleRows(m2) == RoleRows(m);
    }
    assert b == a.(roles := b.roles);
  }

  /** The accumulators are exactly the expected aggregates of the users
      that have rows. */
  ghost predicate AggregatesOf(aggs: map<nat, Aggregate>, ts: seq<Tuple>) {
    && (forall id: nat :: id in aggs <==> |Mine(ts, id)| > 0)
    && (forall id :: id in aggs ==> |Mine(ts, id)| > 0 && aggs[id] == Expected(ts, id))
  }

  /** A row without a user id changes no user's expected aggregate. */
  lemma AggregateSkip(aggs: map<nat, Aggregate>, ts: seq<Tuple>, t: Tuple)
    requires AggregatesOf(aggs, ts) && t.userId.None?
    ensures AggregatesOf(aggs, ts + [t])
  {
    forall id: nat
      ensures |Mine(ts + [t], id)| > 0 <==> |Mine(ts, id)| > 0
    {
      MineGrows(ts, t, id);
    }
    forall id | id in aggs
      ensures Expected(ts + [t], id) == Expected(ts, id)
    {
      ExpectedOther(ts, t, id);
    }
  }

  /** A row of user `id` updates that user's accumulator, creating it on
      the first row, and no other. */
  lemma AggregatePut(aggs: map<nat, Aggregate>, ts: seq<Tuple>, t: Tuple, id: nat)
    requires AggregatesOf(aggs, ts) && t.userId == Some(id)
    ensures AggregatesOf(aggs[id := PutRole(if id in aggs then aggs[id] else Start(t), t)], ts + [t])
  {
    var next := aggs[id := PutRole(if id in aggs then aggs[id] else Start(t), t)];
    forall x: nat
      ensures x in next <==> |Mine(ts + [t], x)| > 0
    {
      MineGrows(ts, t, x);
    }
    forall x | x in next
      ensures |Mine(ts + [t], x)| > 0 && next[x] == Expected(ts + [t], x)
    {
      if x != id {
        ExpectedOther(ts, t, x);
      } else if id in aggs {
        ExpectedNext(ts, t, id);
      } else {
        ExpectedFirst(ts, t, id);
      }
    }
  }

  /** The aggregation loop: a linked map from user id to accumulator, filled
      row by row; rows without a user id are skipped, the first row of a
      user fixes its columns, and each role id is recorded once. */
  method AggregateRows(tuples: seq<Tuple>) returns (aggs: map<nat, Aggregate>)
    ensures forall id :: id in aggs <==> HasRows(tuples, id)
    ensures forall id :: id in aggs ==> |Mine(tuples, id)| > 0 && aggs[id] == Expected(tuples, id)
  {
    aggs := map[];
    for i := 0 to |tuples|
      invariant AggregatesOf(aggs, tuples[..i])
    {
      var t := tuples[i];
      assert tuples[..i + 1] == tuples[..i] + [t];
      if t.userId.None? {
        AggregateSkip(aggs, tuples[..i], t);
      } else {
        var id := t.userId.value;
        AggregatePut(aggs, tuples[..i], t, id);
        var a := if id in aggs then aggs[id] else Start(t);
        if t.roleId.Some? && !ListsRole(a.roles, t.roleId.value) {
          a := a.(roles := a.roles + [RoleOf(t)]);
        }
        aggs := aggs[id := a];
      }
    }
    assert tuples[..|tuples|] == tuples;
    forall id: nat
      ensures HasRows(tuples, id) <==> |Mine(tuples, id)| > 0
    {
      HasRowsIsMine(tuples, id);
    }
  }

  // ---------------------------------------------------------------------
  // The page

  /** One item of the list. */
  datatype UserListItem = UserListItem(id: nat, email: string, name: string, isActive: bool, roles: seq<RoleSummary>)

  function ToItem(a: Aggregate): UserListItem {
    UserListItem(a.id, a.email, a.name, a.isActive, a.roles)
  }

  /** The request's page position. */
  datatype Pageable = Pageable(pageNumber: nat, pageSize: nat)

  /** What `PageImpl` carries: the content, the request's page position, and
      the total. */
  datatype Page = Page(content: seq<UserListItem>, pageable: Pageable, totalElements: nat)

  /** The index of the page's first item. */
  function Offset(p: Pageable): nat {
    p.pageNumber * p.pageSize
  }

  /** The total `PageImpl` stores. A non-empty page that reaches past the
      given total is taken to be the last page, and the total becomes its
      offset plus its item count; otherwise the given total is kept. */
  function PageImplTotal(content: seq<UserListItem>, pageable: Pageable, total: nat): nat {
    if |content| > 0 && Offset(pageable) + pageable.pageSize > total then Offset(pageable) + |content|
    else total
  }

  /** The stored total agrees with the count exactly when the page is
      consistent with it: an empty page or one that stops short of the count
      keeps the count, and a page reaching past it keeps the count exactly
      when it holds the items from the offset up to the count. */
  lemma PageImplTotalKeepsCount(content: seq<UserListItem>, pageable: Pageable, total: nat)
    requires |content| <= pageable.pageSize
    ensures |content| == 0 || Offset(pageable) + pageable.pageSize <= total
            ==> PageImplTotal(content, pageable, total) == total
    ensures |content| > 0 && Offset(pageable) + pageable.pageSize > total
            ==> (PageImplTotal(content, pageable, total) == total <==> Offset(pageable) + |content| == total)
  {
  }

  /** A non-empty page never gets a total smaller than the items it and the
      pages before it hold. */
  lemma PageImplTotalCoversPage(content: seq<UserListItem>, pageable: Pageable, total: nat)
    requires 0 < |content| <= pageable.pageSize
    ensures PageImplTotal(content, pageable, total) >= Offset(pageable) + |content|
  {
  }

  /** The adjustment goes both ways. A first page of size 10 that shows three
      items under a count of five gets total 3, lower than the count. The
      same three items under a count of two get total 3, higher. */
  lemma PageImplTotalMovesBothWays(items: seq<UserListItem>)
    requires |items| == 3
    ensures PageImplTotal(items, Pageable(0, 10), 5) == 3
    ensures PageImplTotal(items, Pageable(0, 10), 2) == 3
  {
  }

  /** The rows the three queries return for the built conditions and the
      page: the distinct-user count, the page's user ids (descending,
      grouped), and the join rows of those users. */
  datatype QueryRows = QueryRows(total: nat, userIds: seq<nat>, tuples: seq<Tuple>)

  /** Rows as the database returns them for one page: at most a page of ids,
      each with join rows, and a page reaching past the count holds exactly
      the ids from the offset up to the count. */
  predicate ConsistentRows(rows: QueryRows, pageable: Pageable) {
    && |rows.userIds| <= pageable.pageSize
    && (forall id :: id in rows.userIds ==> HasRows(rows.tuples, id))
    && (|rows.userIds| > 0 && Offset(pageable) + pageable.pageSize > rows.total
        ==> Offset(pageable) + |rows.userIds| == rows.total)
  }

  function ItemIds(items: seq<UserListItem>): (r: seq<nat>)
    ensures |r| == |items|
    ensures forall i :: 0 <= i < |items| ==> r[i] == items[i].id
  {
    seq(|items|, i requires 0 <= i < |items| => items[i].id)
  }

  /** `userIds.mapNotNull { contentById[it] }`. */
  function Ordered(userIds: seq<nat>, aggs: map<nat, Aggregate>): (r: seq<UserListItem>)
    ensures |r| <= |userIds|
  {
    if |userIds| == 0 then []
    else (if userIds[0] in aggs then [ToItem(aggs[userIds[0]])] else []) + Ordered(userIds[1..], aggs)
  }

  /** The items follow the ids: exactly the ids that have an aggregate, in
      the same order, each item built from its own aggregate, when the map
      is keyed by the aggregates' ids. */
  lemma {:induction false} OrderedFollowsIds(userIds: seq<nat>, aggs: map<nat, Aggregate>)
    requires forall k :: k in aggs ==> aggs[k].id == k
    ensures forall x :: x in Ordered(userIds, aggs) ==> x.id in aggs && x == ToItem(aggs[x.id])
    ensures ItemIds(Ordered(userIds, aggs)) == Filter(userIds, (id: nat) => id in aggs)
  {
    if |userIds| > 0 {
      var rest := Ordered(userIds[1..], aggs);
      OrderedFollowsIds(userIds[1..], aggs);
      var id := userIds[0];
      var p := (x: nat) => x in aggs;
      assert Filter(userIds, p) == (if p(id) then [id] else []) + Filter(userIds[1..], p);
      if id in aggs {
        var r := [ToItem(aggs[id])] + rest;
        assert Ordered(userIds, aggs) == r;
        assert ItemIds(r)[0] == id;
        assert ItemIds(r)[1..] == ItemIds(rest);
        assert ItemIds(r) == [id] + ItemIds(rest);
      } else {
        assert Ordered(userIds, aggs) == rest;
      }
    }
  }

  /** `findUserList`: an empty page with total 0 when nothing matches, an
      empty page keeping the total when the page is past the end, and
      otherwise one item per page user id that has rows, in the order of
      the ids. */
  method FindUserList(rows: QueryRows, pageable: Pageable) returns (page: Page)
    ensures page.pageable == pageable
    ensures rows.total == 0 ==> page.content == [] && page.totalElements == 0
    ensures rows.total > 0 ==> page.totalElements == PageImplTotal(page.content, pageable, rows.total)
    ensures rows.total > 0 && |rows.userIds| == 0 ==> page.content == [] && page.totalElements == rows.total
    ensures |page.content| <= |rows.userIds|
    ensures rows.total > 0 ==> ItemIds(page.content) == Filter(rows.userIds, (id: nat) => HasRows(rows.tuples, id))
    ensures forall x :: x in page.content ==> |Mine(rows.tuples, x.id)| > 0 && x == ToItem(Expected(rows.tuples, x.id))
    ensures ConsistentRows(rows, pageable) ==> page.totalElements == rows.total
    ensures |rows.userIds| <= pageable.pageSize && |page.content| > 0
            ==> page.totalElements >= Offset(pageable) + |page.content|
  {
    if rows.total == 0 {
      return Page([], pageable, 0);
    }
    if |rows.userIds| == 0 {
      return Page([], pageable, rows.total);
    }
    var aggs := AggregateRows(rows.tuples);
    var content := Ordered(rows.userIds, aggs);
    OrderedFollowsIds(rows.userIds, aggs);
    FilterSamePredicate(rows.userIds, aggs, rows.tuples);
    if ConsistentRows(rows, pageable) {
      FilterKeepsAll(rows.userIds, (id: nat) => HasRows(rows.tuples, id));
      assert |content| == |ItemIds(content)| == |rows.userIds|;
    }
    page := Page(content, pageable, PageImplTotal(content, pageable, rows.total));
  }

  /** Filtering by "has an aggregate" and by "has rows" agree. */
  lemma {:induction false} FilterSamePredicate(ids: seq<nat>, aggs: map<nat, Aggregate>, tuples: seq<Tuple>)
    requires forall id :: id in aggs <==> HasRows(tuples, id)
    ensures Filter(ids, (id: nat) => id in aggs) == Filter(ids, (id: nat) => HasRows(tuples, id))
  {
    if |ids| > 0 {
      FilterSamePredicate(ids[1..], aggs, tuples);
    }
  }

  /** Every listed user's roles have distinct ids, and a role is listed
      exactly when one of the user's rows carries its id; each listed role
      is the one the first such row carries. */
  lemma ListedRoles(tuples: seq<Tuple>, id: nat, roleId: nat)
    requires |Mine(tuples, id)| > 0
    ensures var rs := Expected(tuples, id).roles;
      forall i, j :: 0 <= i < j < |rs| ==> rs[i].id != rs[j].id
    ensures ListsRole(Expected(tuples, id).roles, roleId) <==>
      exists t :: t in tuples && t.userId == Some(id) && t.roleId == Some(roleId)
  {
    var m := Mine(tuples, id);
    var rows := RoleRows(m);
    RoleRowsAreRoleOf(m);
    FirstByIdIsDedup(rows);
    if ListsRole(rows, roleId) {
      var x :| x in rows && x.id == roleId;
      var t :| t in m && t.roleId.Some? && x == RoleOf(t);
      assert t in tuples && t.userId == Some(id) && t.roleId == Some(roleId);
    }
    if exists t :: t in tuples && t.userId == Some(id) && t.roleId == Some(roleId) {
      var t :| t in tuples && t.userId == Some(id) && t.roleId == Some(roleId);
      assert t in m;
      assert RoleOf(t) in rows;
    }
  }
}
