/**
 * Page and page-size parsing for list endpoints, and the response envelope
 * that echoes them. A query value is absent when it is missing or the empty
 * string; otherwise it arrived either as a string, carrying the integer
 * `parseInt` reads from it, or as a number.
 */
module Pagination {
  import opened Wrappers
  import opened Arith

  /** A present query value: as a (non-empty, hence truthy) string or as a number. */
  datatype QueryValue = FromString(n: int) | FromNumber(n: int)

  datatype PaginationParams = PaginationParams(page: Option<QueryValue>, pageSize: Option<QueryValue>)

  datatype PaginationResult = PaginationResult(page: int, pageSize: int, skip: int)

  datatype PaginatedResponse<T> = PaginatedResponse(items: seq<T>, total: int, page: int, pageSize: int)

  const DefaultPageSize: int := 20
  const MaxPageSize: int := 100

  /** `parseInt(String(query.x || fallback))`: a missing value and the number 0 fall back, the string "0" does not. */
  function OrElse(v: Option<QueryValue>, fallback: int): int {
    if v.Some? && v.value != FromNumber(0) then v.value.n else fallback
  }

  function Max(a: int, b: int): int {
    if a >= b then a else b
  }

  function Min(a: int, b: int): int {
    if a <= b then a else b
  }

  /**
   * `parsePagination`: the page is at least 1, the page size at least 1 and
   * then at most `maxPageSize`, and `skip` is the number of items on the
   * pages before this one.
   */
  function ParsePagination(query: PaginationParams, defaultPageSize: int, maxPageSize: int): (r: PaginationResult)
    ensures r.page >= 1
    ensures r.pageSize <= maxPageSize
    ensures maxPageSize >= 1 ==> r.pageSize >= 1
    ensures query.page.Some? && query.page.value.n >= 1 ==> r.page == query.page.value.n
    ensures query.page.None? || query.page.value.n <= 1 ==> r.page == 1
    ensures query.pageSize.Some? && 1 <= query.pageSize.value.n <= maxPageSize ==> r.pageSize == query.pageSize.value.n
    ensures query.pageSize.Some? && query.pageSize.value.n > maxPageSize ==> r.pageSize == maxPageSize
    ensures (query.pageSize.None? || query.pageSize.value == FromNumber(0)) && 1 <= defaultPageSize <= maxPageSize ==>
      r.pageSize == defaultPageSize
    ensures query.pageSize.Some? && query.pageSize.value.FromString? && query.pageSize.value.n <= 0 && maxPageSize >= 1 ==>
      r.pageSize == 1
  {
    var page := Max(1, OrElse(query.page, 1));
    var pageSize := Min(maxPageSize, Max(1, OrElse(query.pageSize, defaultPageSize)));
    PaginationResult(page, pageSize, (page - 1) * pageSize)
  }

  /** `buildPaginatedResponse`. */
  function BuildPaginatedResponse<T>(items: seq<T>, total: int, pagination: PaginationResult): (r: PaginatedResponse<T>)
    ensures r.items == items && r.total == total
    ensures r.page == pagination.page && r.pageSize == pagination.pageSize
  {
    PaginatedResponse(items, total, pagination.page, pagination.pageSize)
  }

  /** `k` whole pages of `size` items are `k * size` items, divisible by `size` with quotient `k`. */
  lemma WholePages(k: nat, size: int)
    requires size >= 1
    ensures k * size >= 0
    ensures (k * size) % size == 0 && (k * size) / size == k
  {
    DivModUnique(k * size, size, k, 0);
    if k > 0 {
      MulAtLeast(size, k);
    }
  }

  /** `skip` is never negative, is a whole number of pages, and counts exactly the pages before this one. */
  lemma SkipIsWholePages(query: PaginationParams, defaultPageSize: int, maxPageSize: int)
    requires maxPageSize >= 1
    ensures var r := ParsePagination(query, defaultPageSize, maxPageSize);
      && r.skip >= 0
      && r.skip % r.pageSize == 0
      && r.skip / r.pageSize == r.page - 1
  {
    var r := ParsePagination(query, defaultPageSize, maxPageSize);
    WholePages(r.page - 1, r.pageSize);
  }

  /** Consecutive pages of the same size follow one another without gap or overlap. */
  lemma ConsecutivePagesAbut(page: int, pageSize: int, defaultPageSize: int, maxPageSize: int)
    requires page >= 1 && 1 <= pageSize <= maxPageSize
    ensures var r := ParsePagination(PaginationParams(Some(FromNumber(page)), Some(FromNumber(pageSize))), defaultPageSize, maxPageSize);
      var next := ParsePagination(PaginationParams(Some(FromNumber(page + 1)), Some(FromNumber(pageSize))), defaultPageSize, maxPageSize);
      next.skip == r.skip + r.pageSize
  {
    var r := ParsePagination(PaginationParams(Some(FromNumber(page)), Some(FromNumber(pageSize))), defaultPageSize, maxPageSize);
    var next := ParsePagination(PaginationParams(Some(FromNumber(page + 1)), Some(FromNumber(pageSize))), defaultPageSize, maxPageSize);
    assert next.skip == page * pageSize;
    assert r.skip == (page - 1) * pageSize;
  }

  /**
   * A response's page and page size, sent back as the next query, parse to
   * the same pagination: the echoed values are already normalised.
   */
  lemma ResponseParsesBack<T>(items: seq<T>, total: int, query: PaginationParams, defaultPageSize: int, maxPageSize: int)
    requires maxPageSize >= 1
    ensures var p := ParsePagination(query, defaultPageSize, maxPageSize);
      var resp := BuildPaginatedResponse(items, total, p);
      ParsePagination(PaginationParams(Some(FromString(resp.page)), Some(FromString(resp.pageSize))), defaultPageSize, maxPageSize) == p
  {
  }
}
