/** The pagination bar under the book list: the "Showing start-end of N" bounds, the
    compressed list of page buttons, the previous/next guards and the page-size choices. */
module Pagination {
  import opened Common

  /** Up to this many pages are listed without compression. */
  const MaxVisiblePages: int := 7

  /** The options of the items-per-page selector. */
  const PageSizeOptions: seq<int> := [10, 25, 50, 100]

  /** An entry of the page list: a page button, or the `'...'` marker. */
  datatype PageItem = Number(page: int) | Ellipsis

  /** The first item shown, counting from 1; 0 when there are no items. */
  function StartItem(currentPage: int, itemsPerPage: int, totalItems: int): int {
    if totalItems == 0 then 0 else (currentPage - 1) * itemsPerPage + 1
  }

  /** The last item shown. */
  function EndItem(currentPage: int, itemsPerPage: int, totalItems: int): int {
    Min(currentPage * itemsPerPage, totalItems)
  }

  /** The "previous page" button is disabled. */
  predicate PrevDisabled(currentPage: int) {
    currentPage == 1
  }

  /** The "next page" button is disabled. */
  predicate NextDisabled(currentPage: int, totalPages: int) {
    currentPage == totalPages
  }

  /** From a page in range, an enabled arrow leads to a page in range. */
  lemma ArrowsStayInRange(currentPage: int, totalPages: int)
    requires 1 <= currentPage <= totalPages
    ensures !PrevDisabled(currentPage) ==> 1 <= currentPage - 1 <= totalPages
    ensures !NextDisabled(currentPage, totalPages) ==> 1 <= currentPage + 1 <= totalPages
  {
  }

  /** The guard on "next" is an equality, so from a page past the last one the arrow
      stays enabled and leads further away. */
  lemma NextEnabledPastLastPage(currentPage: int, totalPages: int)
    requires currentPage > totalPages
    ensures !NextDisabled(currentPage, totalPages) && currentPage + 1 > totalPages
  {
  }

  /** The page buttons `lo, lo + 1, ..., hi` (none when `hi < lo`). */
  function Run(lo: int, hi: int): seq<PageItem> {
    seq(Max(hi - lo + 1, 0), k => Number(lo + k))
  }

  /** The page numbers, left to right, are strictly increasing. */
  predicate NumbersAscending(p: seq<PageItem>) {
    forall i, j :: 0 <= i < j < |p| && p[i].Number? && p[j].Number? ==> p[i].page < p[j].page
  }

  predicate NumbersWithin(p: seq<PageItem>, lo: int, hi: int) {
    forall i :: 0 <= i < |p| && p[i].Number? ==> lo <= p[i].page <= hi
  }

  /** Two page buttons side by side, with no marker between them, are consecutive pages. */
  predicate NeighboursConsecutive(p: seq<PageItem>) {
    forall i :: 0 <= i < |p| - 1 && p[i].Number? && p[i + 1].Number? ==> p[i + 1].page == p[i].page + 1
  }

  /** Every marker stands between two page buttons. */
  predicate EllipsesFlanked(p: seq<PageItem>) {
    forall i :: 0 <= i < |p| && p[i].Ellipsis? ==> 0 < i < |p| - 1 && p[i - 1].Number? && p[i + 1].Number?
  }

  /** The list `getPageNumbers` builds: every page when there are at most seven;
      otherwise page 1, a marker if the current page is past 3, the current page and its
      neighbours clipped to 2..total-1, a marker if the current page is before
      total-2, and the last page. */
  ghost function Layout(currentPage: int, totalPages: int): seq<PageItem> {
    if totalPages <= MaxVisiblePages then Run(1, totalPages)
    else
      [Number(1)]
      + (if currentPage > 3 then [Ellipsis] else [])
      + Run(Max(2, currentPage - 1), Min(totalPages - 1, currentPage + 1))
      + (if currentPage < totalPages - 2 then [Ellipsis] else [])
      + [Number(totalPages)]
  }

  lemma RunFacts(lo: int, hi: int)
    ensures NumbersAscending(Run(lo, hi)) && NumbersWithin(Run(lo, hi), lo, hi)
    ensures NeighboursConsecutive(Run(lo, hi))
    ensures forall i :: 0 <= i < |Run(lo, hi)| ==> Run(lo, hi)[i] == Number(lo + i)
  {
  }

  lemma ConcatAscending(a: seq<PageItem>, b: seq<PageItem>, lo: int, mid: int, hi: int)
    requires lo <= mid < hi
    requires NumbersAscending(a) && NumbersWithin(a, lo, mid)
    requires NumbersAscending(b) && NumbersWithin(b, mid + 1, hi)
    ensures NumbersAscending(a + b) && NumbersWithin(a + b, lo, hi)
  {
    var p := a + b;
    forall i, j | 0 <= i < j < |p| && p[i].Number? && p[j].Number? ensures p[i].page < p[j].page {
      if j < |a| {
        assert p[i] == a[i] && p[j] == a[j];
      } else if i >= |a| {
        assert p[i] == b[i - |a|] && p[j] == b[j - |a|];
      } else {
        assert p[i] == a[i] && p[j] == b[j - |a|];
      }
    }
    forall i | 0 <= i < |p| && p[i].Number? ensures lo <= p[i].page <= hi {
      if i < |a| { assert p[i] == a[i]; } else { assert p[i] == b[i - |a|]; }
    }
  }

  lemma ConcatConsecutive(a: seq<PageItem>, b: seq<PageItem>)
    requires NeighboursConsecutive(a) && NeighboursConsecutive(b)
    requires a != [] && b != [] && a[|a| - 1].Number? && b[0].Number? ==> b[0].page == a[|a| - 1].page + 1
    ensures NeighboursConsecutive(a + b)
  {
    var p := a + b;
    forall i | 0 <= i < |p| - 1 && p[i].Number? && p[i + 1].Number? ensures p[i + 1].page == p[i].page + 1 {
      if i + 1 < |a| {
        assert p[i] == a[i] && p[i + 1] == a[i + 1];
      } else if i >= |a| {
        assert p[i] == b[i - |a|] && p[i + 1] == b[i + 1 - |a|];
      } else {
        assert p[i] == a[|a| - 1] && p[i + 1] == b[0];
      }
    }
  }

  /** With at most seven pages the list is exactly 1..total. */
  lemma LayoutSmall(currentPage: int, totalPages: int)
    requires totalPages <= MaxVisiblePages
    ensures var p := Layout(currentPage, totalPages);
      && |p| == Max(totalPages, 0) && (forall i :: 0 <= i < |p| ==> p[i] == Number(i + 1))
      && NumbersAscending(p) && NumbersWithin(p, 1, totalPages)
      && NeighboursConsecutive(p) && EllipsesFlanked(p)
      && (1 <= currentPage <= totalPages ==> Number(currentPage) in p)
  {
    var p := Layout(currentPage, totalPages);
    if 1 <= currentPage <= totalPages {
      assert p[currentPage - 1] == Number(currentPage);
    }
  }

  /** The three parts of a compressed list: page 1 with the optional leading marker, the
      window around the current page, and the optional trailing marker with the last page. */
  ghost function Head(currentPage: int): seq<PageItem> {
    [Number(1)] + (if currentPage > 3 then [Ellipsis] else [])
  }

  ghost function Window(currentPage: int, totalPages: int): seq<PageItem> {
    Run(Max(2, currentPage - 1), Min(totalPages - 1, currentPage + 1))
  }

  ghost function Tail(currentPage: int, totalPages: int): seq<PageItem> {
    (if currentPage < totalPages - 2 then [Ellipsis] else []) + [Number(totalPages)]
  }

  lemma LayoutParts(currentPage: int, totalPages: int)
    requires totalPages > MaxVisiblePages
    ensures Layout(currentPage, totalPages)
      == Head(currentPage) + Window(currentPage, totalPages) + Tail(currentPage, totalPages)
    ensures |Window(currentPage, totalPages)| <= 3
    ensures Window(currentPage, totalPages) == [] ==> (currentPage > 3) != (currentPage < totalPages - 2)
  {
  }

  /** Over more than seven pages, the numbers rise strictly, stay within 1..total, and
      two adjacent buttons are consecutive pages. */
  lemma LayoutLargeOrder(currentPage: int, totalPages: int)
    requires totalPages > MaxVisiblePages
    ensures var p := Layout(currentPage, totalPages);
      NumbersAscending(p) && NumbersWithin(p, 1, totalPages) && NeighboursConsecutive(p)
  {
    LayoutParts(currentPage, totalPages);
    PartsOrder(Head(currentPage), Window(currentPage, totalPages), Tail(currentPage, totalPages),
               Max(2, currentPage - 1), Min(totalPages - 1, currentPage + 1), totalPages);
  }

  /** Page 1 with an optional marker, a run of pages within 2..total-1, and an optional
      marker with the last page, joined, rise strictly and step by one between neighbours. */
  lemma PartsOrder(head: seq<PageItem>, run: seq<PageItem>, tail: seq<PageItem>, lo: int, hi: int, totalPages: int)
    requires totalPages > MaxVisiblePages && lo >= 2 && hi <= totalPages - 1
    requires head == [Number(1)] || head == [Number(1), Ellipsis]
    requires tail == [Number(totalPages)] || tail == [Ellipsis, Number(totalPages)]
    requires run == Run(lo, hi)
    requires run != [] && head == [Number(1)] ==> lo == 2
    requires run != [] && tail == [Number(totalPages)] ==> hi == totalPages - 1
    requires run == [] ==> head != [Number(1)] || tail != [Number(totalPages)]
    ensures var p := head + run + tail;
      NumbersAscending(p) && NumbersWithin(p, 1, totalPages) && NeighboursConsecutive(p)
  {
    RunFacts(lo, hi);
    assert NumbersWithin(run, 2, totalPages - 1);
    ConcatAscending(head, run, 1, 1, totalPages - 1);
    ConcatAscending(head + run, tail, 1, totalPages - 1, totalPages);
    ConcatConsecutive(head, run);
    ConcatConsecutive(head + run, tail);
  }

  /** Over more than seven pages, the list has 3 to 7 entries, starts with page 1, ends
      with the last page, and every marker stands between two buttons. */
  lemma LayoutLargeEnds(currentPage: int, totalPages: int)
    requires totalPages > MaxVisiblePages
    ensures var p := Layout(currentPage, totalPages);
      && 3 <= |p| <= MaxVisiblePages
      && p[0] == Number(1) && p[|p| - 1] == Number(totalPages)
      && EllipsesFlanked(p)
  {
    var p := Layout(currentPage, totalPages);
    var head, run, tail := Head(currentPage), Window(currentPage, totalPages), Tail(currentPage, totalPages);
    LayoutParts(currentPage, totalPages);
    forall i | 0 <= i < |p| && p[i].Ellipsis? ensures 0 < i < |p| - 1 && p[i - 1].Number? && p[i + 1].Number? {
      if i < |head| {
        assert i == 1 && p[0] == Number(1);
        if run != [] { assert p[2] == run[0]; } else { assert p[2] == p[|p| - 1]; }
      } else if i >= |head| + |run| {
        assert i == |p| - 2;
        if run != [] { assert p[i - 1] == run[|run| - 1]; } else { assert p[i - 1] == p[|head| - 1]; }
      }
    }
  }

  /** For a current page in range, the list shows it, and its markers appear exactly
      when the current page is past 3 (leading) or before total-2 (trailing). */
  lemma LayoutLargeCurrent(currentPage: int, totalPages: int)
    requires 1 <= currentPage <= totalPages && totalPages > MaxVisiblePages
    ensures var p := Layout(currentPage, totalPages);
      && |p| >= 3
      && (p[1] == Ellipsis <==> currentPage > 3)
      && (p[|p| - 2] == Ellipsis <==> currentPage < totalPages - 2)
      && Number(currentPage) in p
  {
    var p := Layout(currentPage, totalPages);
    var head, run, tail := Head(currentPage), Window(currentPage, totalPages), Tail(currentPage, totalPages);
    var s := Max(2, currentPage - 1);
    LayoutParts(currentPage, totalPages);
    assert run != [];
    if currentPage == 1 {
      assert p[0] == Number(1);
    } else if currentPage == totalPages {
      assert p[|p| - 1] == Number(totalPages);
    } else {
      assert p[|head| + currentPage - s] == run[currentPage - s];
    }
    assert currentPage <= 3 ==> p[1] == run[0];
    assert currentPage >= totalPages - 2 ==> p[|p| - 2] == run[|run| - 1];
  }

  /** What `getPageNumbers` promises of its list `p`, for every current page:
      - at most seven pages: exactly the buttons 1..total;
      - more pages: 3 to 7 entries, first page 1, last page total, and, for a current
        page in range, a leading marker exactly when it is past 3 and a trailing one
        exactly when it is before total-2;
      - always: the numbers rise strictly and lie in 1..total, adjacent buttons are
        consecutive pages, every marker stands between two buttons, and a current page
        in range is shown. */
  predicate PageListPromise(p: seq<PageItem>, currentPage: int, totalPages: int) {
    && (totalPages <= MaxVisiblePages ==>
          |p| == Max(totalPages, 0) && forall i :: 0 <= i < |p| ==> p[i] == Number(i + 1))
    && (totalPages > MaxVisiblePages ==>
          && 3 <= |p| <= MaxVisiblePages
          && p[0] == Number(1) && p[|p| - 1] == Number(totalPages))
    && (totalPages > MaxVisiblePages && 1 <= currentPage <= totalPages ==>
          && 3 <= |p|
          && (p[1] == Ellipsis <==> currentPage > 3)
          && (p[|p| - 2] == Ellipsis <==> currentPage < totalPages - 2))
    && NumbersAscending(p) && NumbersWithin(p, 1, totalPages)
    && NeighboursConsecutive(p) && EllipsesFlanked(p)
    && (1 <= currentPage <= totalPages ==> Number(currentPage) in p)
  }

  /** The compressed layout keeps every promise, for every current page. */
  lemma LayoutProperties(currentPage: int, totalPages: int)
    ensures PageListPromise(Layout(currentPage, totalPages), currentPage, totalPages)
  {
    if totalPages <= MaxVisiblePages {
      LayoutSmall(currentPage, totalPages);
    } else {
      LayoutLargeOrder(currentPage, totalPages);
      LayoutLargeEnds(currentPage, totalPages);
      if 1 <= currentPage <= totalPages {
        LayoutLargeCurrent(currentPage, totalPages);
      }
    }
  }

  /** One `for` loop of `getPageNumbers`: pushes the pages `lo..hi` in order. */
  method PushRun(pages: seq<PageItem>, lo: int, hi: int) returns (pushed: seq<PageItem>)
    ensures pushed == pages + Run(lo, hi)
  {
    pushed := pages;
    var i := lo;
    while i <= hi
      invariant lo <= i <= Max(hi + 1, lo)
      invariant pushed == pages + Run(lo, i - 1)
    {
      pushed := pushed + [Number(i)];
      i := i + 1;
    }
    if hi < lo {
      assert Run(lo, i - 1) == [] == Run(lo, hi);
    }
  }

  /** `getPageNumbers`: pushes the entries of the page list one by one. */
  method GetPageNumbers(currentPage: int, totalPages: int) returns (pages: seq<PageItem>)
    ensures pages == Layout(currentPage, totalPages)
    ensures PageListPromise(pages, currentPage, totalPages)
  {
    pages := [];
    if totalPages <= MaxVisiblePages {
      pages := PushRun(pages, 1, totalPages);
    } else {
      pages := pages + [Number(1)];
      if currentPage > 3 {
        pages := pages + [Ellipsis];
      }
      assert pages == Head(currentPage);
      var start := Max(2, currentPage - 1);
      var end := Min(totalPages - 1, currentPage + 1);
      pages := PushRun(pages, start, end);
      assert pages == Head(currentPage) + Window(currentPage, totalPages);
      if currentPage < totalPages - 2 {
        pages := pages + [Ellipsis];
      }
      pages := pages + [Number(totalPages)];
      LayoutParts(currentPage, totalPages);
    }
    LayoutProperties(currentPage, totalPages);
  }
}
