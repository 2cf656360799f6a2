/** The user-list service: clamps the requested page position, runs the
    paged list query and copies the page into the response, with the page
    count derived from the total. */
module UserQuery {
  import opened Seqs
  import UserList

  /** The largest page size a caller may ask for. */
  const MaxPageSize: nat := 100

  /** The distance between two integers. */
  function Dist(a: int, b: int): nat {
    if a >= b then a - b else b - a
  }

  /** `page.coerceAtLeast(0)`: the page number that is not negative and
      nearest to the request. */
  function SafePage(page: int): (r: nat)
    ensures page >= 0 ==> r == page
    ensures forall v: nat :: Dist(r, page) <= Dist(v, page)
  {
    if page < 0 then 0 else page
  }

  /** `size.coerceIn(1, 100)`: the size in 1..100 nearest to the request. */
  function SafeSize(size: int): (r: nat)
    ensures 1 <= r <= MaxPageSize
    ensures 1 <= size <= MaxPageSize ==> r == size
    ensures forall v :: 1 <= v <= MaxPageSize ==> Dist(r, size) <= Dist(v, size)
  {
    if size < 1 then 1 else if size > MaxPageSize then MaxPageSize else size
  }

  /** Spring's page count for a non-zero page size: the total divided by
      the size, rounded up. */
  function TotalPages(total: nat, size: nat): (r: nat)
    requires size >= 1
    ensures r * size >= total
    ensures r > 0 ==> (r - 1) * size < total
  {
    (total + size - 1) / size
  }

  /** The page count is the least count whose pages hold the total. */
  lemma TotalPagesIsLeast(total: nat, size: nat, n: nat)
    requires size >= 1 && n * size >= total
    ensures TotalPages(total, size) <= n
  {
    var r := TotalPages(total, size);
    if r > n {
      assert (r - 1) * size >= n * size by {
        MulMonotone(n, r - 1, size);
      }
    }
  }

  lemma MulMonotone(a: nat, b: nat, c: nat)
    requires a <= b
    ensures a * c <= b * c
  {
  }

  /** The response: the page's content and position, the total and the
      page count. */
  datatype UserListResponse = UserListResponse(
    content: seq<UserList.UserListItem>, page: nat, size: nat, totalElements: nat, totalPages: nat)

  /** `findUsers`. The list query is a parameter: it maps the conditions
      and the page position to the rows the three database queries return. */
  method FindUsers(
    keyword: Option<string>, roleCode: Option<string>, isActive: Option<bool>, page: int, size: int,
    query: (seq<UserList.Condition>, UserList.Pageable) -> UserList.QueryRows)
    returns (resp: UserListResponse)
    ensures resp.page == SafePage(page) && resp.size == SafeSize(size)
    ensures 1 <= resp.size <= MaxPageSize
    ensures var rows := query(UserList.BuildConditions(keyword, roleCode, isActive),
                              UserList.Pageable(SafePage(page), SafeSize(size)));
      && resp.totalElements == UserList.PageImplTotal(resp.content, UserList.Pageable(SafePage(page), SafeSize(size)), rows.total)
      && (UserList.ConsistentRows(rows, UserList.Pageable(SafePage(page), SafeSize(size))) ==> resp.totalElements == rows.total)
      && |resp.content| <= |rows.userIds|
      && UserList.ItemIds(resp.content)
           == (if rows.total == 0 then [] else Filter(rows.userIds, (id: nat) => UserList.HasRows(rows.tuples, id)))
      && (forall x :: x in resp.content ==>
            |UserList.Mine(rows.tuples, x.id)| > 0 && x == UserList.ToItem(UserList.Expected(rows.tuples, x.id)))
    ensures resp.totalPages * resp.size >= resp.totalElements
    ensures resp.totalPages > 0 ==> (resp.totalPages - 1) * resp.size < resp.totalElements
  {
    var pageable := UserList.Pageable(SafePage(page), SafeSize(size));
    var rows := query(UserList.BuildConditions(keyword, roleCode, isActive), pageable);
    var result := UserList.FindUserList(rows, pageable);
    resp := UserListResponse(
      result.content, result.pageable.pageNumber, result.pageable.pageSize,
      result.totalElements, TotalPages(result.totalElements, result.pageable.pageSize));
  }
}
