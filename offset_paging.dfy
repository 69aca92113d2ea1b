/** The offset pagination that the college search applies after all its
    filters: `Array.prototype.slice`, `Math.ceil` and the page envelope. */
module OffsetPaging {
  import opened Values

  datatype Pagination = Pagination(
    total: nat,
    currentPage: int,
    pageSize: int,
    totalPages: int,
    hasMore: bool)

  datatype SearchPage = SearchPage(items: seq<Doc>, pagination: Pagination)

  function Min(a: int, b: int): int { if a <= b then a else b }

  /** How `slice` reads an index: negative counts from the end, and the
      result is clamped to the array. */
  function ClampIndex(i: int, len: nat): (r: nat)
    ensures r <= len
    ensures 0 <= i <= len ==> r == i
    ensures i > len ==> r == len
    ensures i < 0 ==> r == if len + i < 0 then 0 else len + i
  {
    if i < 0 then (if len + i < 0 then 0 else len + i)
    else if i > len then len
    else i
  }

  /** `s.slice(start, end)`. */
  function JsSlice<T>(s: seq<T>, start: int, end: int): (r: seq<T>)
    ensures 0 <= start <= end <= |s| ==> r == s[start..end]
    ensures start <= end ==> |r| <= end - start
    ensures exists lo, hi :: 0 <= lo <= hi <= |s| && r == s[lo..hi]
  {
    var lo := ClampIndex(start, |s|);
    var hi := ClampIndex(end, |s|);
    ClampWithin(start, end, |s|);
    if lo < hi then s[lo..hi] else assert s[0..0] == []; []
  }

  /** Clamping never widens a range. */
  lemma ClampWithin(i: int, j: int, len: nat)
    ensures i <= j ==> ClampIndex(j, len) - ClampIndex(i, len) <= j - i
  {
  }

  /** `Math.ceil(a / b)` for a count a and a non-zero integer b. */
  function CeilDiv(a: nat, b: int): (r: int)
    requires b != 0
    ensures b > 0 ==> (r - 1) * b < a <= r * b
    ensures b < 0 ==> r * b <= a < (r - 1) * b
  {
    if b > 0 then
      var r := (a + b - 1) / b;
      assert (a + b - 1) == r * b + (a + b - 1) % b;
      r
    else
      var f := a / -b;
      assert a == f * -b + a % -b;
      assert (-f - 1) * b == (f + 1) * -b;
      -f
  }

  /** The results slice and the pagination block of a search, for the
      already defaulted page and limit. */
  function Paginate(results: seq<Doc>, page: int, limit: int): (r: SearchPage)
    requires limit != 0
    ensures r.pagination.total == |results|
    ensures r.pagination.currentPage == page && r.pagination.pageSize == limit
    ensures limit > 0 ==> |r.items| <= limit
    ensures exists lo, hi :: 0 <= lo <= hi <= |results| && r.items == results[lo..hi]
  {
    var startIndex := (page - 1) * limit;
    SearchPage(
      JsSlice(results, startIndex, startIndex + limit),
      Pagination(|results|, page, limit, CeilDiv(|results|, limit), startIndex + limit < |results|))
  }

  lemma MulMonotone(a: int, b: int, c: nat)
    requires a <= b
    ensures a * c <= b * c
  {
  }

  /** For a positive page and limit, the page holds the results from
      (page-1)*limit on, at most limit of them, and hasMore says that more
      results follow the page. */
  lemma PaginateWindow(results: seq<Doc>, page: int, limit: int)
    requires page >= 1 && limit >= 1
    ensures (page - 1) * limit >= 0
    ensures var start := (page - 1) * limit;
            var r := Paginate(results, page, limit);
            && r.items == results[Min(start, |results|)..Min(start + limit, |results|)]
            && (r.pagination.hasMore <==> start + |r.items| < |results|)
  {
    MulMonotone(0, page - 1, limit);
  }

  /** hasMore holds on exactly the pages before the last one. */
  lemma HasMoreBeforeLastPage(results: seq<Doc>, page: int, limit: int)
    requires page >= 1 && limit >= 1
    ensures Paginate(results, page, limit).pagination.hasMore <==>
            page < Paginate(results, page, limit).pagination.totalPages
  {
    var t := CeilDiv(|results|, limit);
    if page < t {
      MulMonotone(page, t - 1, limit);
    } else {
      MulMonotone(t, page, limit);
    }
  }

  /** A negative limit is truthy and so kept: page 1 then holds every
      result but the last |limit| ones, reports more to come, and counts
      no pages. */
  lemma NegativeLimitDropsTail(results: seq<Doc>, limit: int)
    requires limit < 0
    ensures var r := Paginate(results, 1, limit);
            && r.items == results[..ClampIndex(limit, |results|)]
            && r.pagination.hasMore
            && r.pagination.totalPages <= 0
  {
    NegativeFactor(CeilDiv(|results|, limit) - 1, limit);
  }

  lemma NonNegativeFactor(x: int, y: int)
    requires y > 0 && x * y >= 0
    ensures x >= 0
  {
  }

  lemma NegativeFactor(x: int, y: int)
    requires y < 0 && x * y > 0
    ensures x < 0
  {
  }

  /** The items of pages 1 to n, one after the other. */
  ghost function PagesUpTo(results: seq<Doc>, limit: int, n: nat): seq<Doc>
    requires limit >= 1
  {
    if n == 0 then [] else PagesUpTo(results, limit, n - 1) + Paginate(results, n, limit).items
  }

  lemma {:induction false} PagesUpToPrefix(results: seq<Doc>, limit: int, n: nat)
    requires limit >= 1
    ensures PagesUpTo(results, limit, n) == results[..Min(n * limit, |results|)]
  {
    if n > 0 {
      PagesUpToPrefix(results, limit, n - 1);
      PaginateWindow(results, n, limit);
      NextOffset(n, limit);
      PrefixThenRange(results, Min((n - 1) * limit, |results|), Min(n * limit, |results|));
    }
  }

  lemma NextOffset(n: int, limit: int)
    requires n >= 1 && limit >= 1
    ensures 0 <= (n - 1) * limit < n * limit
    ensures (n - 1) * limit + limit == n * limit
  {
    MulMonotone(0, n - 1, limit);
  }

  lemma PrefixThenRange(s: seq<Doc>, a: nat, b: nat)
    requires a <= b <= |s|
    ensures s[..a] + s[a..b] == s[..b]
  {
  }

  /** Pages 1 to totalPages together hold every result exactly once, in order. */
  lemma PagesCover(results: seq<Doc>, limit: int)
    requires limit >= 1
    ensures var t := Paginate(results, 1, limit).pagination.totalPages;
            t >= 0 && PagesUpTo(results, limit, t) == results
  {
    var t := CeilDiv(|results|, limit);
    NonNegativeFactor(t, limit);
    PagesUpToPrefix(results, limit, t);
  }
}
