/**
 * The pagination policy of findAll: the defaults for an absent page or
 * limit, the number of rows to skip, the last page number, and the window
 * of rows that a skip/take query returns.
 */
module Pagination {
  import opened Wrappers

  /** The findAll payload; either field may be absent. */
  datatype PaginationDto = PaginationDto(page: Option<int>, limit: Option<int>)

  /** A page request once the defaults are filled in. */
  datatype PageRequest = PageRequest(page: int, limit: int)

  datatype PageMeta = PageMeta(total: nat, page: int, lastPage: nat)

  /** The findAll response: one page of rows and its metadata. */
  datatype PageResult<T> = PageResult(data: seq<T>, meta: PageMeta)

  const DefaultPage: int := 1
  const DefaultLimit: int := 10

  /** What the request validator guarantees: a page or limit that is present is positive. */
  predicate ValidPagination(dto: PaginationDto) {
    (dto.page.Some? ==> dto.page.value >= 1) && (dto.limit.Some? ==> dto.limit.value >= 1)
  }

  /** Destructuring with defaults: an absent page reads as 1, an absent limit as 10. */
  function Resolve(dto: PaginationDto): (req: PageRequest)
    ensures dto.page.None? ==> req.page == DefaultPage
    ensures dto.page.Some? ==> req.page == dto.page.value
    ensures dto.limit.None? ==> req.limit == DefaultLimit
    ensures dto.limit.Some? ==> req.limit == dto.limit.value
    ensures ValidPagination(dto) ==> req.page >= 1 && req.limit >= 1
  {
    PageRequest(
      if dto.page.Some? then dto.page.value else DefaultPage,
      if dto.limit.Some? then dto.limit.value else DefaultLimit)
  }

  /** Rows before the first row of `page`. */
  function Offset(page: int, limit: int): (skip: nat)
    requires page >= 1 && limit >= 1
    ensures skip % limit == 0 && skip / limit == page - 1
  {
    MultipleDivMod(page - 1, limit);
    (page - 1) * limit
  }

  /** Dividing q * d by d gives q with no remainder. */
  lemma MultipleDivMod(q: int, d: int)
    requires q >= 0 && d >= 1
    ensures (q * d) / d == q && (q * d) % d == 0
  {
    var x := q * d;
    var a, b := x / d, x % d;
    assert (a - q) * d == -b;
    if a - q >= 1 {
      MulMonotone(1, a - q, d);
    } else if a - q <= -1 {
      MulMonotone(a - q, -1, d);
    }
  }

  /** `last` is the ceiling of total / limit: the least number of pages of `limit` rows that hold `total` rows. */
  predicate IsCeiling(last: int, total: int, limit: int) {
    total <= last * limit && (last - 1) * limit < total
  }

  function LastPage(total: nat, limit: int): (last: nat)
    requires limit >= 1
    ensures IsCeiling(last, total, limit)
  {
    var q := (total + limit - 1) / limit;
    var m := (total + limit - 1) % limit;
    assert q * limit + m == total + limit - 1;
    assert (q - 1) * limit == q * limit - limit;
    q
  }

  function Min(a: int, b: int): (m: int) {
    if a <= b then a else b
  }

  /** The rows a query returns when it skips `skip` rows and takes at most `take`. */
  function Window<T>(s: seq<T>, skip: nat, take: nat): (w: seq<T>)
    ensures |w| == if skip >= |s| then 0 else Min(take, |s| - skip)
    ensures forall i :: 0 <= i < |w| ==> w[i] == s[skip + i]
  {
    if skip >= |s| then [] else s[skip .. skip + Min(take, |s| - skip)]
  }

  lemma MulMonotone(a: int, b: int, c: int)
    requires a <= b && c >= 1
    ensures a * c <= b * c
  {
    assert b * c - a * c == (b - a) * c;
  }

  /** A page holds rows exactly when its number is at most the last page number. */
  lemma PageNonEmptyIff(total: nat, page: int, limit: int)
    requires page >= 1 && limit >= 1
    ensures Offset(page, limit) < total <==> page <= LastPage(total, limit)
  {
    var last := LastPage(total, limit);
    if page <= last {
      MulMonotone(page - 1, last - 1, limit);
    } else {
      MulMonotone(last, page - 1, limit);
    }
  }

  /** Row i of the filtered rows is shown on page i / limit + 1, at position i % limit, and that page is not past the last one. */
  lemma RowOnItsPage<T>(s: seq<T>, i: nat, limit: int)
    requires i < |s| && limit >= 1
    ensures var page := i / limit + 1;
            var w := Window(s, Offset(page, limit), limit);
            page <= LastPage(|s|, limit) && i % limit < |w| && w[i % limit] == s[i]
  {
    var page := i / limit + 1;
    assert Offset(page, limit) + i % limit == i;
    PageNonEmptyIff(|s|, page, limit);
  }

  /**
   * The page `req` asks for out of `rows`: meta.total counts all rows, the
   * page number is echoed, meta.lastPage is the ceiling of total / limit, and
   * data is the at most `limit` rows that follow the first
   * (page - 1) * limit, in order.
   */
  function Paginate<T>(rows: seq<T>, req: PageRequest): (r: PageResult<T>)
    requires req.page >= 1 && req.limit >= 1
    ensures r.meta.total == |rows| && r.meta.page == req.page
    ensures IsCeiling(r.meta.lastPage, r.meta.total, req.limit)
    ensures |r.data| <= req.limit
    ensures forall i :: 0 <= i < |r.data| ==>
              Offset(req.page, req.limit) + i < |rows| && r.data[i] == rows[Offset(req.page, req.limit) + i]
    ensures |r.data| == if Offset(req.page, req.limit) >= |rows| then 0
                        else Min(req.limit, |rows| - Offset(req.page, req.limit))
    ensures |r.data| > 0 <==> r.meta.page <= r.meta.lastPage
  {
    var skip := Offset(req.page, req.limit);
    var last := LastPage(|rows|, req.limit);
    PageNonEmptyIff(|rows|, req.page, req.limit);
    PageResult(Window(rows, skip, req.limit), PageMeta(|rows|, req.page, last))
  }
}
