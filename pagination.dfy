/**
 * Pagination: the page count, the rows of the current page (a JavaScript
 * `slice`), the Previous/Next page updates and the bounds of the
 * "Showing X to Y of Z entries" line.
 */
module Pagination {

  function Min(a: int, b: int): int { if a <= b then a else b }
  function Max(a: int, b: int): int { if a >= b then a else b }

  /** `Math.ceil(len / entriesPerPage)`: the least page count whose pages hold `len` rows. */
  function TotalPages(len: nat, entriesPerPage: int): (r: nat)
    requires entriesPerPage > 0
    ensures len <= r * entriesPerPage
    ensures r == 0 || (r - 1) * entriesPerPage < len
  {
    var r := (len + entriesPerPage - 1) / entriesPerPage;
    DivBounds(len + entriesPerPage - 1, entriesPerPage);
    r
  }

  lemma DivBounds(a: nat, b: int)
    requires b > 0
    ensures (a / b) * b <= a < (a / b) * b + b
  {
  }

  /**
   * An argument of `Array.prototype.slice` turned into a position: a negative
   * one counts back from the end, and either is clamped to `[0, len]`.
   */
  function RelativeIndex(i: int, len: nat): (r: nat)
    ensures r <= len
    ensures 0 <= i <= len ==> r == i
    ensures i > len ==> r == len
    ensures i < 0 ==> r == Max(len + i, 0)
  {
    if i < 0 then (if len + i < 0 then 0 else len + i) else (if i > len then len else i)
  }

  /** `s.slice(start, end)` */
  function Slice<T>(s: seq<T>, start: int, end: int): (r: seq<T>)
    ensures var from, to := RelativeIndex(start, |s|), RelativeIndex(end, |s|);
            r == if from < to then s[from..to] else []
  {
    var from := RelativeIndex(start, |s|);
    var to := RelativeIndex(end, |s|);
    if from < to then s[from..to] else []
  }

  /** The position of the first row of a page. */
  function PageStart(currentPage: int, entriesPerPage: int): int {
    (currentPage - 1) * entriesPerPage
  }

  /** `sortedData.slice((currentPage - 1) * entriesPerPage, currentPage * entriesPerPage)` */
  function CurrentEntries<T>(data: seq<T>, currentPage: int, entriesPerPage: int): (r: seq<T>)
    requires entriesPerPage > 0
    ensures currentPage >= 1 ==> |r| <= entriesPerPage
    ensures currentPage >= 1 ==>
              |r| == (if PageStart(currentPage, entriesPerPage) >= |data| then 0
                      else Min(entriesPerPage, |data| - PageStart(currentPage, entriesPerPage)))
    ensures currentPage >= 1 ==>
              forall k :: 0 <= k < |r| ==> r[k] == data[PageStart(currentPage, entriesPerPage) + k]
    ensures currentPage == 0 ==> r == []
  {
    PageSlice(data, currentPage, entriesPerPage);
    Slice(data, (currentPage - 1) * entriesPerPage, currentPage * entriesPerPage)
  }

  /** The slice of page `p`, in terms of the page's first position. */
  lemma PageSlice<T>(data: seq<T>, p: int, n: int)
    requires n > 0
    ensures var r := Slice(data, (p - 1) * n, p * n);
            && (p >= 1 ==> |r| <= n)
            && (p >= 1 ==> |r| == (if PageStart(p, n) >= |data| then 0 else Min(n, |data| - PageStart(p, n))))
            && (p >= 1 ==> forall k :: 0 <= k < |r| ==> r[k] == data[PageStart(p, n) + k])
            && (p == 0 ==> r == [])
  {
    PageProduct(p, n);
    PageWindow(data, PageStart(p, n), p * n, n);
  }

  lemma PageProduct(p: int, n: int)
    requires n > 0
    ensures p * n == PageStart(p, n) + n
    ensures p >= 1 ==> PageStart(p, n) >= 0
    ensures p == 0 ==> p * n == 0 && PageStart(p, n) < 0
  {
  }

  /** A slice of `n` positions starting at a non-negative one, and one ending at 0. */
  lemma PageWindow<T>(data: seq<T>, start: int, end: int, n: int)
    requires n > 0 && end == start + n
    ensures start >= 0 ==>
              var r := Slice(data, start, end);
              && |r| <= n
              && |r| == (if start >= |data| then 0 else Min(n, |data| - start))
              && forall k :: 0 <= k < |r| ==> r[k] == data[start + k]
    ensures start < 0 && end == 0 ==> Slice(data, start, end) == []
  {
  }

  /** On page 1 the table shows `min(|data|, entriesPerPage)` rows. */
  lemma FirstPageSize<T>(data: seq<T>, entriesPerPage: int)
    requires entriesPerPage > 0
    ensures |CurrentEntries(data, 1, entriesPerPage)| == Min(|data|, entriesPerPage)
  {
  }

  /** Pages `1..m` one after the other. */
  function PagesUpTo<T>(data: seq<T>, entriesPerPage: int, m: nat): seq<T>
    requires entriesPerPage > 0
  {
    if m == 0 then [] else PagesUpTo(data, entriesPerPage, m - 1) + CurrentEntries(data, m, entriesPerPage)
  }

  lemma {:induction false} PagesUpToIsPrefix<T>(data: seq<T>, entriesPerPage: int, m: nat)
    requires entriesPerPage > 0
    ensures PagesUpTo(data, entriesPerPage, m) == data[..Min(m * entriesPerPage, |data|)]
  {
    if m > 0 {
      PagesUpToIsPrefix(data, entriesPerPage, m - 1);
      PageProduct(m, entriesPerPage);
      var lo := Min(PageStart(m, entriesPerPage), |data|);
      var hi := Min(m * entriesPerPage, |data|);
      var page := CurrentEntries(data, m, entriesPerPage);
      assert |page| == hi - lo;
      assert data[..hi] == data[..lo] + data[lo..hi];
      assert page == data[lo..hi];
    }
  }

  /** Read in order, the pages `1..totalPages` are exactly the data, each row once. */
  lemma PagesCoverData<T>(data: seq<T>, entriesPerPage: int)
    requires entriesPerPage > 0
    ensures PagesUpTo(data, entriesPerPage, TotalPages(|data|, entriesPerPage)) == data
  {
    PagesUpToIsPrefix(data, entriesPerPage, TotalPages(|data|, entriesPerPage));
  }

  /** Every page from 1 to `totalPages` has a row; every later page has none. */
  lemma PageEmptyIffBeyondLast<T>(data: seq<T>, currentPage: int, entriesPerPage: int)
    requires entriesPerPage > 0 && currentPage >= 1
    ensures CurrentEntries(data, currentPage, entriesPerPage) == [] <==>
            currentPage > TotalPages(|data|, entriesPerPage)
  {
    var t := TotalPages(|data|, entriesPerPage);
    if currentPage > t {
      MulMonotone(t, currentPage - 1, entriesPerPage);
    } else {
      MulMonotone(currentPage - 1, t - 1, entriesPerPage);
    }
  }

  lemma MulMonotone(a: int, b: int, n: int)
    requires 0 <= a <= b && n > 0
    ensures a * n <= b * n
  {
  }

  /** Previous: `Math.max(currentPage - 1, 1)`. */
  function PreviousPage(currentPage: int): (r: int)
    ensures r >= 1
    ensures currentPage <= 1 ==> r == 1
    ensures currentPage >= 1 ==> r <= currentPage
    ensures currentPage > 1 ==> r == currentPage - 1
  {
    Max(currentPage - 1, 1)
  }

  /** Next as written: `Math.min(currentPage + 1, totalPages)`. */
  function NextPage(currentPage: int, totalPages: int): (r: int)
    ensures r <= totalPages
    ensures currentPage >= totalPages ==> r == totalPages
    ensures currentPage < totalPages ==> r == currentPage + 1
  {
    Min(currentPage + 1, totalPages)
  }

  /** Next with the floor of page 1 that Previous has: with no pages it stays on page 1. */
  function ClampedNextPage(currentPage: int, totalPages: int): (r: int)
    ensures currentPage >= 1 ==> 1 <= r
    ensures r <= Max(totalPages, 1)
    ensures totalPages >= 1 ==> r == NextPage(currentPage, totalPages)
    ensures currentPage == Max(totalPages, 1) ==> r == currentPage
  {
    Min(currentPage + 1, Max(totalPages, 1))
  }

  /** The numbers of the status line "Showing start to end of total entries". */
  datatype Status = Status(start: int, end: int, total: int)

  function StatusLine(currentPage: int, entriesPerPage: int, len: nat): (s: Status)
    ensures s.start <= len && s.end <= len && s.total == len
  {
    Status(Min((currentPage - 1) * entriesPerPage + 1, len), Min(currentPage * entriesPerPage, len), len)
  }

  /**
   * On a page that has rows, the status line numbers exactly the rows shown
   * (1-based); on a page past the last one it shows "len to len" over an
   * empty page, as the current page is not reset when the data shrinks.
   */
  lemma StatusMatchesEntries<T>(data: seq<T>, currentPage: int, entriesPerPage: int)
    requires entriesPerPage > 0 && currentPage >= 1
    ensures var s := StatusLine(currentPage, entriesPerPage, |data|);
            var rows := CurrentEntries(data, currentPage, entriesPerPage);
            if (currentPage - 1) * entriesPerPage < |data| then
              s.start == (currentPage - 1) * entriesPerPage + 1 && s.end == s.start + |rows| - 1 && 1 <= s.start <= s.end
            else
              rows == [] && s.start == s.end == |data|
  {
    PageProduct(currentPage, entriesPerPage);
  }

  /**
   * As written, Next with no pages (an empty search result) moves to page 0:
   * the status line then starts below zero ("Showing -9 to 0 of 0 entries"
   * with 10 rows per page), and page 0 shows no rows whatever the data.
   */
  lemma NextWithNoPagesGoesToPageZero<T>(data: seq<T>, entriesPerPage: int)
    requires entriesPerPage > 0
    ensures NextPage(1, TotalPages(0, entriesPerPage)) == 0
    ensures StatusLine(0, entriesPerPage, 0).start == 1 - entriesPerPage
    ensures CurrentEntries(data, 0, entriesPerPage) == []
  {
  }

  /**
   * With the clamped Next the page stays at least 1, so the status line never
   * starts below zero and a page with rows is shown once rows exist.
   */
  lemma ClampedNextKeepsStatusNonNegative(currentPage: int, totalPages: int, entriesPerPage: int, len: nat)
    requires currentPage >= 1 && entriesPerPage > 0
    ensures var p := ClampedNextPage(currentPage, totalPages);
            p >= 1 && StatusLine(p, entriesPerPage, len).start >= 0
  {
    PageProduct(ClampedNextPage(currentPage, totalPages), entriesPerPage);
  }
}
