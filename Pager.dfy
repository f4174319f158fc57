/** The five-a-page pager of display_policy_news in app.py.
    `st.session_state.current_page` starts at 1; on each run the "上一页"
    and "下一页" buttons move it within the pages, and then it is clamped to
    the number of pages of the current filtered list. */
module Pager {

  const PageSize: nat := 5

  /** `max(1, (total_items + PAGE_SIZE - 1) // PAGE_SIZE)`. */
  function TotalPages(totalItems: nat): (r: nat)
    ensures r >= 1
    ensures totalItems == 0 ==> r == 1
    ensures totalItems > 0 ==> (r - 1) * PageSize < totalItems <= r * PageSize
  {
    var pages := (totalItems + PageSize - 1) / PageSize;
    if pages > 1 then pages else 1
  }

  /** The page after one run: the guarded step back, the guarded step
      forward, then the clamp. */
  function Navigated(page: int, totalItems: nat, prev: bool, next: bool): int {
    var total := TotalPages(totalItems);
    var p1 := if prev && page > 1 then page - 1 else page;
    var p2 := if next && p1 < total then p1 + 1 else p1;
    if p2 > total then total else p2
  }

  /** From any page at or above 1 the pager lands on an existing page. */
  lemma NavigatedInRange(page: int, totalItems: nat, prev: bool, next: bool)
    requires page >= 1
    ensures 1 <= Navigated(page, totalItems, prev, next) <= TotalPages(totalItems)
  {
  }

  /** Within range, "上一页" alone moves back one page unless on the first,
      and "下一页" alone moves on one page unless on the last. */
  lemma StepsWithinRange(page: int, totalItems: nat)
    requires 1 <= page <= TotalPages(totalItems)
    ensures Navigated(page, totalItems, true, false) == (if page > 1 then page - 1 else 1)
    ensures Navigated(page, totalItems, false, true) == (if page < TotalPages(totalItems) then page + 1 else page)
    ensures Navigated(page, totalItems, false, false) == page
  {
  }

  /** A page left beyond a shrunken list falls back to its last page. */
  lemma StalePageClamped(page: int, totalItems: nat)
    requires page > TotalPages(totalItems)
    ensures Navigated(page, totalItems, true, false) == TotalPages(totalItems)
    ensures Navigated(page, totalItems, false, true) == TotalPages(totalItems)
  {
  }

  /** `processed_df.iloc[start_idx:end_idx]` for the page: rows
      `(page - 1) * 5` up to `page * 5`, cut at the end of the list. */
  function ShownRows<T>(rows: seq<T>, page: nat): (r: seq<T>)
    requires 1 <= page <= TotalPages(|rows|)
    ensures |rows| > 0 ==> 1 <= |r| <= PageSize
    ensures |rows| == 0 ==> r == []
    ensures forall k :: 0 <= k < |r| ==> (page - 1) * PageSize + k < |rows| && r[k] == rows[(page - 1) * PageSize + k]
  {
    var start := (page - 1) * PageSize;
    var end := start + PageSize;
    if start >= |rows| then []
    else rows[start..if end < |rows| then end else |rows|]
  }

  /** The pages, read in order, give back the whole list. */
  function AllPages<T>(rows: seq<T>, pages: nat): seq<T>
    requires pages <= TotalPages(|rows|)
  {
    if pages == 0 then [] else AllPages(rows, pages - 1) + ShownRows(rows, pages)
  }

  lemma {:induction false} PagesCover<T>(rows: seq<T>, pages: nat)
    requires |rows| > 0 && pages <= TotalPages(|rows|)
    ensures AllPages(rows, pages) == rows[..if pages * PageSize < |rows| then pages * PageSize else |rows|]
  {
    if pages > 0 {
      PagesCover(rows, pages - 1);
      var start := (pages - 1) * PageSize;
      var end := if pages * PageSize < |rows| then pages * PageSize else |rows|;
      assert start < |rows|;
      assert ShownRows(rows, pages) == rows[start..end];
      assert rows[..start] + rows[start..end] == rows[..end];
    }
  }

  /** Every row is on exactly one page and the pages hold nothing else. */
  lemma PagesPartition<T>(rows: seq<T>)
    requires |rows| > 0
    ensures AllPages(rows, TotalPages(|rows|)) == rows
  {
    PagesCover(rows, TotalPages(|rows|));
    assert rows[..|rows|] == rows;
  }

  /** The pager as `st.session_state` keeps it. */
  class NewsPager {
    var currentPage: int

    constructor ()
      ensures currentPage == 1
    {
      currentPage := 1;
    }

    /** One run of the page: the button presses, then the clamp. */
    method Navigate(totalItems: nat, prev: bool, next: bool)
      requires currentPage >= 1
      modifies this
      ensures currentPage == Navigated(old(currentPage), totalItems, prev, next)
      ensures 1 <= currentPage <= TotalPages(totalItems)
    {
      var total := TotalPages(totalItems);
      if prev && currentPage > 1 {
        currentPage := currentPage - 1;
      }
      if next && currentPage < total {
        currentPage := currentPage + 1;
      }
      if currentPage > total {
        currentPage := total;
      }
      NavigatedInRange(old(currentPage), totalItems, prev, next);
    }

    /** The rows shown after the clamp. */
    method CurrentRows<T>(rows: seq<T>) returns (shown: seq<T>)
      requires 1 <= currentPage <= TotalPages(|rows|)
      ensures shown == ShownRows(rows, currentPage)
    {
      var start := (currentPage - 1) * PageSize;
      var end := start + PageSize;
      if start >= |rows| {
        return [];
      }
      shown := rows[start..if end < |rows| then end else |rows|];
    }
  }
}
