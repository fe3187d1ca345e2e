/**
 * The page selector under the result list: the page buttons, with an
 * ellipsis standing for each run of hidden pages, and the Previous and Next
 * buttons that move one page and stop at the ends.
 */
module Pagination {

  /** One entry of the selector: a page button or an ellipsis. */
  datatype PageItem = Page(n: int) | Ellipsis

  /** Up to this many pages every page gets a button. */
  const MaxVisible: int := 5

  function Max(a: int, b: int): int { if a >= b then a else b }
  function Min(a: int, b: int): int { if a <= b then a else b }

  /** The buttons for pages `a` to `b` inclusive, in order (none when `b < a`). */
  function Range(a: int, b: int): (r: seq<PageItem>)
    ensures |r| == if b < a then 0 else b - a + 1
    ensures forall i :: 0 <= i < |r| ==> r[i] == Page(a + i)
    decreases b - a
  {
    if b < a then [] else Range(a, b - 1) + [Page(b)]
  }

  /**
   * The selector's entries, stated in closed form: every page when there
   * are at most five; otherwise page 1, the current page with its two
   * neighbours (kept off the first and last page), page `total`, and an
   * ellipsis wherever pages are skipped at the start or the end.
   */
  function PageList(current: int, total: int): (r: seq<PageItem>)
    ensures |r| <= 7
    ensures total <= MaxVisible ==> |r| == Max(total, 0) && forall i :: 0 <= i < |r| ==> r[i] == Page(i + 1)
    ensures total > MaxVisible ==> |r| >= 2 && r[0] == Page(1) && r[|r| - 1] == Page(total)
  {
    if total <= MaxVisible then Range(1, total)
    else
      [Page(1)]
      + (if current > 3 then [Ellipsis] else [])
      + Range(Max(2, current - 1), Min(total - 1, current + 1))
      + (if current < total - 2 then [Ellipsis] else [])
      + [Page(total)]
  }

  /**
   * `getPageNumbers`, step by step as written: push pages, push an
   * ellipsis, and push a page only if the list does not include it yet.
   */
  method GetPageNumbers(current: int, total: int) returns (pages: seq<PageItem>)
    ensures pages == PageList(current, total)
  {
    if total <= MaxVisible {
      pages := PushAll(total);
    } else {
      pages := PushLong(current, total);
    }
  }

  /** The short-list branch of `getPageNumbers`: every page from 1 to `total`. */
  method PushAll(total: int) returns (pages: seq<PageItem>)
    ensures pages == Range(1, total)
  {
    pages := [];
    var i := 1;
    while i <= total
      invariant 1 <= i <= Max(total, 0) + 1
      invariant pages == Range(1, i - 1)
    {
      pages := pages + [Page(i)];
      i := i + 1;
    }
  }

  /**
   * The long-list branch of `getPageNumbers`: page 1, an optional
   * ellipsis, the window around the current page, an optional ellipsis,
   * and the last page.
   */
  method PushLong(current: int, total: int) returns (pages: seq<PageItem>)
    requires total > MaxVisible
    ensures pages == [Page(1)]
      + (if current > 3 then [Ellipsis] else [])
      + Range(Max(2, current - 1), Min(total - 1, current + 1))
      + (if current < total - 2 then [Ellipsis] else [])
      + [Page(total)]
  {
    pages := [Page(1)];
    if current > 3 {
      pages := pages + [Ellipsis];
    }
    var startPage := Max(2, current - 1);
    var endPage := Min(total - 1, current + 1);
    var head := pages;
    pages := PushWindow(pages, startPage, endPage);
    var window := pages;
    assert forall k :: 0 <= k < |window| && window[k].Page? ==> window[k].n < total by {
      assert forall k :: |head| <= k < |window| ==> window[k] == Page(startPage + k - |head|);
    }
    if current < total - 2 {
      pages := pages + [Ellipsis];
    }
    if Page(total) !in pages {
      pages := pages + [Page(total)];
    } else {
      assert false;
    }
  }

  /**
   * The window loop of `getPageNumbers`: pages `startPage` to `endPage`
   * pushed in order, each one after checking it is not listed yet.
   */
  method PushWindow(head: seq<PageItem>, startPage: int, endPage: int) returns (pages: seq<PageItem>)
    requires startPage >= 2
    requires forall k :: 0 <= k < |head| && head[k].Page? ==> head[k].n < startPage
    ensures pages == head + Range(startPage, endPage)
  {
    pages := head;
    var i := startPage;
    while i <= endPage
      invariant startPage <= i <= Max(endPage + 1, startPage)
      invariant pages == head + Range(startPage, i - 1)
      invariant forall k :: 0 <= k < |pages| && pages[k].Page? ==> pages[k].n < i
    {
      if Page(i) !in pages {
        pages := pages + [Page(i)];
      } else {
        assert false;
      }
      i := i + 1;
    }
  }

  // ---------------------------------------------------------------------------
  // Shape of the list
  // ---------------------------------------------------------------------------

  /** The page numbers strictly increase from left to right. */
  predicate Increasing(ps: seq<PageItem>) {
    forall i, j :: 0 <= i < j < |ps| && ps[i].Page? && ps[j].Page? ==> ps[i].n < ps[j].n
  }

  /** Two neighbouring buttons are consecutive pages. */
  predicate NeighboursContiguous(ps: seq<PageItem>) {
    forall i :: 0 <= i < |ps| - 1 && ps[i].Page? && ps[i + 1].Page? ==> ps[i + 1].n == ps[i].n + 1
  }

  /** An ellipsis sits between two buttons and stands for at least one page. */
  predicate EllipsesSkip(ps: seq<PageItem>) {
    forall i :: 0 <= i < |ps| && ps[i].Ellipsis? ==>
      0 < i < |ps| - 1 && ps[i - 1].Page? && ps[i + 1].Page? && ps[i + 1].n > ps[i - 1].n + 1
  }

  /** Every button is a page between 1 and `total`. */
  predicate InRange(ps: seq<PageItem>, total: int) {
    forall i :: 0 <= i < |ps| && ps[i].Page? ==> 1 <= ps[i].n <= total
  }

  /**
   * With at most five pages the selector lists exactly pages 1 to `total`;
   * with more it starts at page 1 and ends at page `total`.
   */
  lemma PageListEnds(current: int, total: int)
    ensures total <= MaxVisible ==> PageList(current, total) == Range(1, total)
    ensures total > MaxVisible ==>
      var ps := PageList(current, total);
      |ps| >= 2 && ps[0] == Page(1) && ps[|ps| - 1] == Page(total)
  {
  }

  /** The leading ellipsis appears exactly when the current page is past 3. */
  lemma LeadingEllipsis(current: int, total: int)
    requires 1 <= current <= total && total > MaxVisible
    ensures var ps := PageList(current, total);
      |ps| >= 3 && (ps[1] == Ellipsis <==> current > 3)
  {
  }

  /** The trailing ellipsis appears exactly when the current page is before `total - 2`. */
  lemma TrailingEllipsis(current: int, total: int)
    requires 1 <= current <= total && total > MaxVisible
    ensures var ps := PageList(current, total);
      |ps| >= 3 && (ps[|ps| - 2] == Ellipsis <==> current < total - 2)
  {
  }

  /**
   * For a current page within range: the buttons are increasing pages in
   * range, neighbouring buttons are consecutive pages, and each ellipsis
   * skips at least one page; the list never exceeds seven entries.
   */
  lemma PageListShape(current: int, total: int)
    requires 1 <= current <= total
    ensures var ps := PageList(current, total);
      Increasing(ps) && NeighboursContiguous(ps) && EllipsesSkip(ps) && InRange(ps, total) && |ps| <= 7
  {
    var ps := PageList(current, total);
    if total > MaxVisible {
      var lead: seq<PageItem> := if current > 3 then [Ellipsis] else [];
      var trail: seq<PageItem> := if current < total - 2 then [Ellipsis] else [];
      var lo := Max(2, current - 1);
      var hi := Min(total - 1, current + 1);
      var mid := Range(lo, hi);
      LongListShape(ps, lead, mid, trail, current, total, lo, hi);
    }
  }

  lemma LongListShape(ps: seq<PageItem>, lead: seq<PageItem>, mid: seq<PageItem>, trail: seq<PageItem>,
                      current: int, total: int, lo: int, hi: int)
    requires 1 <= current <= total && total > MaxVisible
    requires lo == Max(2, current - 1) && hi == Min(total - 1, current + 1) && mid == Range(lo, hi)
    requires lead == (if current > 3 then [Ellipsis] else [])
    requires trail == (if current < total - 2 then [Ellipsis] else [])
    requires ps == [Page(1)] + lead + mid + trail + [Page(total)]
    ensures Increasing(ps) && NeighboursContiguous(ps) && EllipsesSkip(ps) && InRange(ps, total) && |ps| <= 7
  {
    var a := 1 + |lead|;
    var b := a + |mid|;
    LongListLayout(ps, lead, mid, trail, current, total, lo, hi);
    LayoutIncreasing(ps, a, b, lo, total);
    LayoutContiguous(ps, a, b, lo, total);
    LayoutEllipses(ps, a, b, lo, total);
    LayoutInRange(ps, a, b, lo, total);
  }

  /**
   * Where things sit in a long list: page 1, then `a - 1` ellipses, the
   * window of consecutive pages from `lo` at positions `a` to `b - 1`, then
   * ellipses up to page `total` at the end.
   */
  ghost predicate Layout(ps: seq<PageItem>, a: int, b: int, lo: int, total: int) {
    && 1 <= a <= 2 && a < b <= a + 3 && b + 1 <= |ps| <= b + 2
    && ps[0] == Page(1) && ps[|ps| - 1] == Page(total)
    && (forall i :: a <= i < b ==> ps[i] == Page(lo + i - a))
    && (forall i :: 0 < i < a ==> ps[i] == Ellipsis)
    && (forall i :: b <= i < |ps| - 1 ==> ps[i] == Ellipsis)
    && lo >= 2 && (a == 1 ==> lo == 2) && (a == 2 ==> lo > 2)
    && lo + b - a <= total && (|ps| == b + 1 ==> lo + b - a == total) && (|ps| == b + 2 ==> lo + b - a < total)
  }

  lemma LongListLayout(ps: seq<PageItem>, lead: seq<PageItem>, mid: seq<PageItem>, trail: seq<PageItem>,
                       current: int, total: int, lo: int, hi: int)
    requires 1 <= current <= total && total > MaxVisible
    requires lo == Max(2, current - 1) && hi == Min(total - 1, current + 1) && mid == Range(lo, hi)
    requires lead == (if current > 3 then [Ellipsis] else [])
    requires trail == (if current < total - 2 then [Ellipsis] else [])
    requires ps == [Page(1)] + lead + mid + trail + [Page(total)]
    ensures Layout(ps, 1 + |lead|, 1 + |lead| + |mid|, lo, total)
  {
    var a := 1 + |lead|;
    var b := a + |mid|;
    assert |mid| >= 1 && |mid| <= 3;
    assert forall i :: a <= i < b ==> ps[i] == mid[i - a];
    assert forall i :: 0 < i < a ==> ps[i] == lead[i - 1];
    assert forall i :: b <= i < |ps| - 1 ==> ps[i] == trail[i - b];
  }

  lemma LayoutIncreasing(ps: seq<PageItem>, a: int, b: int, lo: int, total: int)
    requires Layout(ps, a, b, lo, total)
    ensures Increasing(ps)
  {
  }

  lemma LayoutContiguous(ps: seq<PageItem>, a: int, b: int, lo: int, total: int)
    requires Layout(ps, a, b, lo, total)
    ensures NeighboursContiguous(ps)
  {
  }

  lemma LayoutEllipses(ps: seq<PageItem>, a: int, b: int, lo: int, total: int)
    requires Layout(ps, a, b, lo, total)
    ensures EllipsesSkip(ps) && |ps| <= 7
  {
  }

  lemma LayoutInRange(ps: seq<PageItem>, a: int, b: int, lo: int, total: int)
    requires Layout(ps, a, b, lo, total)
    ensures InRange(ps, total)
  {
  }

  /** Every button names a page; the current page, page 1 and page `total` always have one. */
  lemma PageListHasCurrent(current: int, total: int)
    requires 1 <= current <= total
    ensures Page(current) in PageList(current, total)
    ensures Page(1) in PageList(current, total) && Page(total) in PageList(current, total)
  {
    var ps := PageList(current, total);
    if total <= MaxVisible {
      assert ps[current - 1] == Page(current);
      assert ps[0] == Page(1) && ps[total - 1] == Page(total);
    } else {
      var lo := Max(2, current - 1);
      var mid := Range(lo, Min(total - 1, current + 1));
      if current == 1 || current == total {
      } else {
        assert mid[current - lo] == Page(current);
        assert mid <= ps[|ps| - |mid| - |if current < total - 2 then [Ellipsis] else []| - 1..];
        assert ps == ([Page(1)] + (if current > 3 then [Ellipsis] else [])) + mid
          + ((if current < total - 2 then [Ellipsis] else []) + [Page(total)]);
      }
    }
  }

  /**
   * Which pages get a button: all of them up to five pages; beyond that,
   * exactly the first, the last, and those next to the current page.
   */
  lemma PageListMembers(current: int, total: int, p: int)
    requires 1 <= current <= total
    ensures Page(p) in PageList(current, total) <==>
      1 <= p <= total && (total <= MaxVisible || p == 1 || p == total || current - 1 <= p <= current + 1)
  {
    var ps := PageList(current, total);
    if total <= MaxVisible {
      if 1 <= p <= total {
        assert ps[p - 1] == Page(p);
      }
    } else {
      var lead: seq<PageItem> := if current > 3 then [Ellipsis] else [];
      var trail: seq<PageItem> := if current < total - 2 then [Ellipsis] else [];
      var lo := Max(2, current - 1);
      var hi := Min(total - 1, current + 1);
      var mid := Range(lo, hi);
      assert ps == [Page(1)] + lead + mid + trail + [Page(total)];
      if lo <= p <= hi {
        assert mid[p - lo] == Page(p);
        assert ps[1 + |lead| + p - lo] == Page(p);
      }
      if Page(p) in ps {
        var k :| 0 <= k < |ps| && ps[k] == Page(p);
        if 1 + |lead| <= k < 1 + |lead| + |mid| {
          assert ps[k] == mid[k - 1 - |lead|];
        }
      }
    }
  }

  /** Ten pages, current page 5: `1 … 4 5 6 … 10`. */
  lemma PageListExample()
    ensures PageList(5, 10) == [Page(1), Ellipsis, Page(4), Page(5), Page(6), Ellipsis, Page(10)]
  {
    assert Range(4, 6) == [Page(4), Page(5), Page(6)];
  }

  // ---------------------------------------------------------------------------
  // Previous and Next
  // ---------------------------------------------------------------------------

  /** The page Previous asks for: one back, never below 1. */
  function PreviousPage(current: int): (r: int)
    ensures r >= 1
    ensures current > 1 ==> r == current - 1
    ensures current <= 1 ==> r == 1
  {
    Max(1, current - 1)
  }

  function PreviousDisabled(current: int): bool
  {
    current == 1
  }

  /** The page Next asks for: one forward, never beyond `total`. */
  function NextPage(current: int, total: int): (r: int)
    ensures r <= total
    ensures current < total ==> r == current + 1
    ensures current >= total ==> r == total
  {
    Min(total, current + 1)
  }

  function NextDisabled(current: int, total: int): bool
  {
    current == total
  }

  /**
   * Within range, Previous is disabled exactly when it would not move,
   * Next likewise, and both land on a page between 1 and `total`.
   */
  lemma StepButtons(current: int, total: int)
    requires 1 <= current <= total
    ensures PreviousDisabled(current) <==> PreviousPage(current) == current
    ensures NextDisabled(current, total) <==> NextPage(current, total) == current
    ensures 1 <= PreviousPage(current) <= total && 1 <= NextPage(current, total) <= total
  {
  }

  /** What the user does with the selector. */
  datatype Click = Previous | Next | Choose(index: nat)

  /**
   * The page after a click: Previous and Next as above; a page button
   * selects its page; an ellipsis is not a button and changes nothing.
   */
  function Step(current: int, total: int, click: Click): (r: int)
    ensures 1 <= current <= total && (click.Previous? || click.Next?) ==> current - 1 <= r <= current + 1
    ensures click.Choose? ==> r == current || Page(r) in PageList(current, total)
  {
    match click
    case Previous => PreviousPage(current)
    case Next => NextPage(current, total)
    case Choose(k) =>
      var ps := PageList(current, total);
      if k < |ps| && ps[k].Page? then ps[k].n else current
  }

  /** Any click keeps the current page between 1 and `total`. */
  lemma StepStaysInRange(current: int, total: int, click: Click)
    requires 1 <= current <= total
    ensures 1 <= Step(current, total, click) <= total
  {
    if click.Choose? {
      PageListShape(current, total);
    }
  }

  /**
   * The page after a run of clicks. Repeated Previous clicks go back one
   * page each and stop at page 1; repeated Next clicks go forward one page
   * each and stop at page `total`.
   */
  function Walk(current: int, total: int, clicks: seq<Click>): (r: int)
    ensures |clicks| == 0 ==> r == current
    ensures current >= 1 && (forall i :: 0 <= i < |clicks| ==> clicks[i] == Previous) ==> r == Max(1, current - |clicks|)
    ensures current <= total && (forall i :: 0 <= i < |clicks| ==> clicks[i] == Next) ==> r == Min(total, current + |clicks|)
    decreases |clicks|
  {
    if |clicks| == 0 then current else Walk(Step(current, total, clicks[0]), total, clicks[1..])
  }

  /** However many clicks, the page stays between 1 and `total`. */
  lemma {:induction false} WalkStaysInRange(current: int, total: int, clicks: seq<Click>)
    requires 1 <= current <= total
    ensures 1 <= Walk(current, total, clicks) <= total
    decreases |clicks|
  {
    if |clicks| > 0 {
      StepStaysInRange(current, total, clicks[0]);
      WalkStaysInRange(Step(current, total, clicks[0]), total, clicks[1..]);
    }
  }
}
