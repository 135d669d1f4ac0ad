/**
 * The arithmetic of get_paged(): which page and row a request lands on, given
 * the total the count query reports, and the figures it records about the page.
 */
module Paging {
  import opened Results

  /** PHP's floor($a / $b) for a non-zero divisor. */
  function FloorDiv(a: int, b: int): (r: int)
    requires b != 0
    ensures b > 0 ==> b * r <= a < b * r + b
    ensures b < 0 ==> b * r >= a > b * r + b
  {
    if b > 0 then a / b else (-a) / (-b)
  }

  /** PHP's ceil($a / $b) for a non-zero divisor. */
  function CeilDiv(a: int, b: int): (r: int)
    requires b != 0
    ensures b > 0 ==> b * r - b < a <= b * r
  {
    -FloorDiv(-a, b)
  }

  function Max(a: int, b: int): int { if a >= b then a else b }
  function Min(a: int, b: int): int { if a <= b then a else b }

  /** The figures get_paged() stores on its info object. */
  datatype PageInfo = PageInfo(
    pageSize: int,
    itemsOnPage: nat,
    currentPage: int,
    currentRow: int,
    totalRows: nat,
    lastRow: int,
    totalPages: int,
    hasPrevious: bool,
    previousPage: int,
    previousRow: int,
    hasNext: bool,
    nextPage: int,
    nextRow: int)

  /** The rows a LIMIT/OFFSET query returns out of `total` rows. */
  function RowsAt(total: nat, pageSize: int, offset: int): (r: nat)
    ensures r <= total
    ensures 0 <= offset && 0 < pageSize ==> r == Max(0, Min(pageSize, total - offset))
  {
    if offset < 0 || pageSize <= 0 then 0 else Max(0, Min(pageSize, total - offset))
  }

  /** The requested page: a 1-based page number, or (by rows) the page holding that 0-based row; never below 1. */
  function RequestedPage(page: int, pageSize: int, byRows: bool): (r: int)
    requires pageSize != 0
    ensures r >= 1
    ensures !byRows ==> r == Max(1, page)
    ensures byRows && pageSize > 0 && page >= 0 ==> pageSize * (r - 1) <= page < pageSize * r
  {
    var f := FloorDiv(page, pageSize);
    assert pageSize > 0 ==> pageSize * (f + 1) == pageSize * f + pageSize;
    Max(1, if byRows then 1 + f else page)
  }

  /**
   * The info object once the page and the row it starts at are settled. Both
   * previous and next figures are clamped: to 1 / row 0 below, to the last
   * page / last row above.
   */
  function Info(pageSize: int, total: nat, page: int, offset: int, lastRow: int, totalPages: int): (r: PageInfo)
    ensures r.hasNext <==> page < totalPages
    ensures r.hasPrevious <==> offset > 0
    ensures r.previousPage >= 1 && r.previousRow >= 0
    ensures r.nextPage <= totalPages && r.nextRow <= lastRow
  {
    PageInfo(pageSize, RowsAt(total, pageSize, offset), page, offset, total, lastRow, totalPages,
      offset > 0, Max(1, page - 1), Max(0, offset - pageSize),
      page < totalPages, Min(totalPages, page + 1), Min(lastRow, offset + pageSize))
  }

  /**
   * get_paged($page, $page_size, $page_num_by_rows) as written: a request at
   * or past `last_row` (page_size * floor(total / page_size)) is moved there
   * and reported as the last page. A zero page size is a division by zero.
   */
  function PagedAsWritten(page: int, pageSize: int, byRows: bool, total: nat): (r: Result<PageInfo>)
    ensures pageSize == 0 <==> r.Failure?
    ensures r.Success? ==> r.value.totalRows == total && r.value.pageSize == pageSize
    ensures r.Success? ==>
      r.value.lastRow == pageSize * FloorDiv(total, pageSize) && r.value.totalPages == CeilDiv(total, pageSize)
    ensures r.Success? && pageSize > 0 ==> r.value.lastRow <= total
    ensures r.Success? ==>
      var asked := RequestedPage(page, pageSize, byRows);
      var offset := pageSize * (asked - 1);
      (offset >= r.value.lastRow ==> r.value.currentRow == r.value.lastRow && r.value.currentPage == r.value.totalPages)
      && (offset < r.value.lastRow ==> r.value.currentRow == offset && r.value.currentPage == asked)
  {
    if pageSize == 0 then Failure("Division by zero")
    else
      var p := RequestedPage(page, pageSize, byRows);
      var offset := pageSize * (p - 1);
      var lastRow := pageSize * FloorDiv(total, pageSize);
      var totalPages := CeilDiv(total, pageSize);
      if offset >= lastRow then Success(Info(pageSize, total, totalPages, lastRow, lastRow, totalPages))
      else Success(Info(pageSize, total, p, offset, lastRow, totalPages))
  }

  /** With no rows at all, every request reports page 0 at row 0. */
  lemma EmptyIsPageZero(page: int, pageSize: int, byRows: bool)
    requires pageSize > 0
    ensures var r := PagedAsWritten(page, pageSize, byRows, 0).value;
      r.currentPage == 0 && r.totalPages == 0 && r.currentRow == 0 && !r.hasNext && r.itemsOnPage == 0
  {
  }

  /**
   * As written, when the total is a whole number of pages a request past the
   * end lands on row `total`, where nothing is left, while it reports the last
   * page: 100 rows in pages of 50, page 3 asked, gives page 2 starting at row 100.
   */
  lemma PastEndLandsAfterLastPage()
    ensures var r := PagedAsWritten(3, 50, false, 100).value;
      r.currentPage == 2 && r.currentRow == 100 && r.itemsOnPage == 0
      && r.currentRow != r.pageSize * (r.currentPage - 1)
  {
    assert FloorDiv(100, 50) == 2;
    assert CeilDiv(100, 50) == 2 by { assert FloorDiv(-100, 50) == -2; }
  }

  /** The row the last page starts at: that of page ceil(total / page_size), row 0 with no rows. */
  function LastPageRow(total: nat, pageSize: int): (r: int)
    requires pageSize > 0
    ensures total > 0 ==> 0 <= r < total && r == pageSize * (CeilDiv(total, pageSize) - 1)
    ensures total == 0 ==> r == 0
  {
    if total == 0 then 0
    else
      var f := FloorDiv(total - 1, pageSize);
      CeilIsFloorPlusOne(total, pageSize);
      MulMono(pageSize, 0, f);
      pageSize * f
  }

  lemma MulMono(k: int, a: int, b: int)
    requires k > 0 && a <= b
    ensures k * a <= k * b
  {
    assert k * b - k * a == k * (b - a);
  }

  lemma MulLessCancel(k: int, a: int, b: int)
    requires k > 0 && k * a < k * b
    ensures a < b
  {
    if a >= b {
      MulMono(k, b, a);
    }
  }

  /** For a positive total, ceil(total / size) is one more than floor((total - 1) / size). */
  lemma CeilIsFloorPlusOne(total: int, pageSize: int)
    requires pageSize > 0 && total > 0
    ensures CeilDiv(total, pageSize) == FloorDiv(total - 1, pageSize) + 1
  {
    var c := CeilDiv(total, pageSize);
    var f := FloorDiv(total - 1, pageSize);
    assert pageSize * c - pageSize < total <= pageSize * c;
    assert pageSize * f < total <= pageSize * f + pageSize;
    assert pageSize * (f + 1) == pageSize * f + pageSize;
    assert pageSize * (c - 1) == pageSize * c - pageSize;
    MulLessCancel(pageSize, f, c);
    MulLessCancel(pageSize, c - 1, f + 1);
  }

  /** get_paged() with a request past the end moved to the start of the last page. */
  function Paged(page: int, pageSize: int, byRows: bool, total: nat): (r: Result<PageInfo>)
    ensures pageSize == 0 <==> r.Failure?
  {
    if pageSize == 0 then Failure("Division by zero")
    else
      var p := RequestedPage(page, pageSize, byRows);
      var offset := pageSize * (p - 1);
      var totalPages := CeilDiv(total, pageSize);
      var lastRow := if pageSize > 0 then LastPageRow(total, pageSize) else pageSize * FloorDiv(total, pageSize);
      if offset >= lastRow then Success(Info(pageSize, total, totalPages, lastRow, lastRow, totalPages))
      else Success(Info(pageSize, total, p, offset, lastRow, totalPages))
  }

  /**
   * Corrected, every page reported is a real one: it lies in 1..total_pages,
   * starts at page_size * (page - 1), before the last row, and holds rows.
   */
  lemma PagedIsConsistent(page: int, pageSize: int, byRows: bool, total: nat)
    requires pageSize > 0 && total > 0
    ensures var r := Paged(page, pageSize, byRows, total).value;
      1 <= r.currentPage <= r.totalPages
      && r.currentRow == pageSize * (r.currentPage - 1)
      && 0 <= r.currentRow < total
      && r.itemsOnPage > 0
      && (r.hasNext <==> r.currentRow + pageSize < total)
  {
    var p := RequestedPage(page, pageSize, byRows);
    var tp := CeilDiv(total, pageSize);
    var offset := pageSize * (p - 1);
    var last := LastPageRow(total, pageSize);
    CeilIsFloorPlusOne(total, pageSize);
    assert last == pageSize * (tp - 1);
    MulMono(pageSize, 1, p);
    assert offset >= 0;
    LastPageEnds(total, pageSize, tp, last);
    var r := Paged(page, pageSize, byRows, total).value;
    if offset < last {
      assert r == Info(pageSize, total, p, offset, last, tp);
      OffsetBelowLast(pageSize, p, tp);
      assert offset + pageSize <= last;
    } else {
      assert r == Info(pageSize, total, tp, last, last, tp);
    }
  }

  /** The last page starts within one page of the end. */
  lemma LastPageEnds(total: nat, pageSize: int, tp: int, last: int)
    requires pageSize > 0 && total > 0
    requires tp == CeilDiv(total, pageSize) && last == pageSize * (tp - 1)
    ensures tp >= 1 && last < total <= last + pageSize
  {
    assert pageSize * (tp - 1) + pageSize == pageSize * tp;
    if tp < 1 {
      MulMono(pageSize, tp, 0);
    }
  }

  /** A page that starts before the last page's row is followed by a whole page. */
  lemma OffsetBelowLast(pageSize: int, p: int, tp: int)
    requires pageSize > 0 && pageSize * (p - 1) < pageSize * (tp - 1)
    ensures p < tp && pageSize * (p - 1) + pageSize <= pageSize * (tp - 1)
  {
    MulLessCancel(pageSize, p - 1, tp - 1);
    MulMono(pageSize, p, tp - 1);
    assert pageSize * (p - 1) + pageSize == pageSize * p;
  }

  /** Paging by rows: a row that exists is on the page reported. */
  lemma RowIsOnItsPage(row: int, pageSize: int, total: nat)
    requires pageSize > 0 && 0 <= row < total
    ensures var r := Paged(row, pageSize, true, total).value;
      r.currentRow <= row < r.currentRow + pageSize
  {
    var p := RequestedPage(row, pageSize, true);
    assert p == 1 + FloorDiv(row, pageSize);
    var offset := pageSize * (p - 1);
    assert offset <= row < offset + pageSize;
    var last := LastPageRow(total, pageSize);
    if offset >= last {
      assert last <= row;
      assert row < total <= last + pageSize by {
        assert pageSize * (CeilDiv(total, pageSize) - 1) + pageSize == pageSize * CeilDiv(total, pageSize);
      }
    }
  }
}
