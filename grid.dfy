/** Paging over search results: the result screens show ten rows per page
    and address the selection mask at page * 10 + row. */
module Grid {
  import opened Constants

  /** cursor2D: x is the column, y the row on the page. */
  datatype Cursor2D = Cursor2D(x: int, y: int)

  /** min(num_entries_per_page, len - page * num_entries_per_page): the
      rows on the current page, negative once the page lies past the end. */
  function NumEntriesOnPage(len: nat, page: int): (n: int)
    ensures n <= NumEntriesPerPage
    ensures 0 <= page && page * NumEntriesPerPage < len ==> n >= 1
    ensures 0 <= page ==> page * NumEntriesPerPage + n <= len
  {
    if NumEntriesPerPage < len - page * NumEntriesPerPage then NumEntriesPerPage
    else len - page * NumEntriesPerPage
  }

  /** len / num_entries_per_page: the largest page index Right reaches. */
  function NumPages(len: nat): nat
  {
    len / NumEntriesPerPage
  }

  /** The mask index of a row of the current page. */
  function SelectionIndex(page: int, row: int): int
  {
    page * NumEntriesPerPage + row
  }

  /** A row strictly inside the current page addresses an existing
      result. */
  lemma RowOnPageInRange(len: nat, page: int, row: int)
    requires 0 <= page && 0 <= row < NumEntriesOnPage(len, page)
    ensures 0 <= SelectionIndex(page, row) < len
  {
  }

  /** Paging right reaches a page with no rows exactly when the number of
      results is a multiple of ten: num_pages counts full pages, so the
      last index it allows is one past the end in that case. */
  lemma LastPageEmptyIff(len: nat)
    ensures NumEntriesOnPage(len, NumPages(len)) <= 0 <==> len % NumEntriesPerPage == 0
  {
  }
}
