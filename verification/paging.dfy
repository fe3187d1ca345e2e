/**
 * The result list shown six records at a time: the page count, the slice
 * each page shows, and when the page selector appears.
 */
module Paging {
  import Pagination

  const PageSize: nat := 6

  /** `Math.ceil(n / 6)` for a non-negative record count. */
  function TotalPages(n: nat): (pages: nat)
    ensures pages * PageSize >= n
    ensures pages > 0 ==> (pages - 1) * PageSize < n
  {
    (n + PageSize - 1) / PageSize
  }

  /** A `slice` index as JavaScript resolves it: negative counts from the end, then clamped to `[0, len]`. */
  function SliceIndex(i: int, len: nat): (r: nat)
    ensures r <= len
    ensures 0 <= i <= len ==> r == i
    ensures i > len ==> r == len
  {
    if i < 0 then (if len + i < 0 then 0 else len + i)
    else if i > len then len else i
  }

  /** `Array.prototype.slice(start, end)`: never fails, empty when the indices cross. */
  function JsSlice<T>(s: seq<T>, start: int, end: int): (r: seq<T>)
    ensures |r| <= |s|
    ensures 0 <= start <= end <= |s| ==> r == s[start..end]
    ensures 0 <= end <= start ==> r == []
  {
    var a := SliceIndex(start, |s|);
    var b := SliceIndex(end, |s|);
    if a < b then s[a..b] else []
  }

  function StartIndex(currentPage: int): int
  {
    (currentPage - 1) * PageSize
  }

  /** `results.slice(startIndex, endIndex)` for the current page. */
  function PageSlice<T>(results: seq<T>, currentPage: int): (r: seq<T>)
    ensures |r| <= PageSize
    ensures currentPage >= 1 && |r| > 0 ==>
      StartIndex(currentPage) + |r| <= |results| && r == results[StartIndex(currentPage)..StartIndex(currentPage) + |r|]
  {
    JsSlice(results, StartIndex(currentPage), StartIndex(currentPage) + PageSize)
  }

  /** The page selector is shown only when there is more than one page. */
  predicate ShowsPagination(n: nat)
  {
    TotalPages(n) > 1
  }

  /** The component starts on page 1. */
  const FirstPage: int := 1

  // ---------------------------------------------------------------------------
  // Properties
  // ---------------------------------------------------------------------------

  /** `ceil(n / 6)` is the least page count whose pages hold `n` records. */
  lemma TotalPagesIsLeast(n: nat, k: nat)
    requires k * PageSize >= n
    ensures TotalPages(n) <= k
  {
  }

  /**
   * A page within range shows records `(C-1)*6` up to `min(C*6, n)`:
   * between one and six of them.
   */
  lemma PageSliceBounds<T>(results: seq<T>, currentPage: int)
    requires 1 <= currentPage <= TotalPages(|results|)
    ensures var s := StartIndex(currentPage);
      var e := if s + PageSize <= |results| then s + PageSize else |results|;
      0 <= s < e <= |results| && PageSlice(results, currentPage) == results[s..e]
    ensures 1 <= |PageSlice(results, currentPage)| <= PageSize
  {
  }

  /** A page past the last one shows nothing, and is no error. */
  lemma PageBeyondLastIsEmpty<T>(results: seq<T>, currentPage: int)
    requires currentPage > TotalPages(|results|)
    ensures PageSlice(results, currentPage) == []
  {
    assert StartIndex(currentPage) >= TotalPages(|results|) * PageSize;
  }

  /** Pages 1 to `k` in order, concatenated. */
  function FirstPages<T>(results: seq<T>, k: nat): seq<T>
  {
    if k == 0 then [] else FirstPages(results, k - 1) + PageSlice(results, k)
  }

  /** The first `k` pages together are the first `6k` records (or all of them). */
  lemma {:induction false} FirstPagesArePrefix<T>(results: seq<T>, k: nat)
    requires k <= TotalPages(|results|)
    ensures var e := if k * PageSize <= |results| then k * PageSize else |results|;
      FirstPages(results, k) == results[..e]
  {
    if k > 0 {
      FirstPagesArePrefix(results, k - 1);
      PageSliceBounds(results, k);
      var s := StartIndex(k);
      var e := if k * PageSize <= |results| then k * PageSize else |results|;
      assert s == (k - 1) * PageSize;
      assert results[..s] + results[s..e] == results[..e];
    }
  }

  /** Reading every page in order gives back the whole list: nothing lost, nothing repeated. */
  lemma AllPagesAreResults<T>(results: seq<T>)
    ensures FirstPages(results, TotalPages(|results|)) == results
  {
    FirstPagesArePrefix(results, TotalPages(|results|));
    assert results[..|results|] == results;
  }

  /** The selector appears exactly when there are more than six records. */
  lemma PaginationShownIffMoreThanAPage(n: nat)
    ensures ShowsPagination(n) <==> n > PageSize
  {
  }

  /** Fourteen records: three pages, the last holding two. */
  lemma FourteenRecords<T>(results: seq<T>)
    requires |results| == 14
    ensures TotalPages(|results|) == 3
    ensures PageSlice(results, 3) == results[12..14]
  {
  }

  /**
   * Whatever the user clicks in the selector, starting from page 1, the
   * page shown is a real page with at least one record.
   */
  lemma ClicksShowRecords<T>(results: seq<T>, clicks: seq<Pagination.Click>)
    requires |results| > 0
    ensures var page := Pagination.Walk(FirstPage, TotalPages(|results|), clicks);
      1 <= page <= TotalPages(|results|) && |PageSlice(results, page)| >= 1
  {
    var total := TotalPages(|results|);
    Pagination.WalkStaysInRange(FirstPage, total, clicks);
    PageSliceBounds(results, Pagination.Walk(FirstPage, total, clicks));
  }
}
