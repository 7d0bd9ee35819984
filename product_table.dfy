/**
  The grid's state and its handlers. Each handler is one atomic transition on the
  current state; fields not named in a handler's `modifies` clause keep their values.
*/
module ProductGrid {
  import opened Products
  import opened Paging
  import opened Sorting
  import opened SortState
  import opened Selection
  import opened Rows
  import Columns

  /** Rows drawn from `seed` have their ids among the seed's ids. */
  lemma SubMultisetIds(data: seq<Product>, seed: seq<Product>)
    requires multiset(data) <= multiset(seed)
    ensures |data| <= |seed|
    ensures forall x :: x in Ids(data) ==> x in Ids(seed)
  {
    var extra := multiset(seed) - multiset(data);
    assert multiset(seed) == multiset(data) + extra;
    forall p | p in data
      ensures p in seed
    {
      assert p in multiset(data);
    }
    SameMembersSameIds(data, seed);
  }

  /** Sorting keeps the multiset of rows, hence the ids too. */
  lemma SortKeepsRows(o: Order, rows: seq<Product>)
    ensures multiset(InsertionSort(o, rows)) == multiset(rows)
    ensures forall x :: x in Ids(rows) ==> x in Ids(InsertionSort(o, rows))
  {
    var sorted := InsertionSort(o, rows);
    InsertionSortPermutes(o, rows);
    forall p | p in rows
      ensures p in sorted
    {
      assert p in multiset(rows);
    }
    SameMembersSameIds(rows, sorted);
  }

  class ProductTable {
    /** `productData`, the list the grid is seeded with and restores to. */
    const seed: seq<Product>
    /** `String.prototype.localeCompare`, used by the name and availability sorts. */
    const localeCompare: LocaleCompare

    var data: seq<Product>
    var currentPage: int
    var sortConfig: SortConfig
    var selectedRows: seq<int>
    var columnWidths: Columns.Widths

    /**
      What every handler preserves: the page cursor is at least 1 and at most the
      page count (or 1 when the list is empty); the working list is drawn from the
      seed without repeats beyond the seed's; the sort key and direction are set
      together; the selection lists no id twice; and `localeCompare` is a
      consistent comparator.
    */
    ghost predicate Valid()
      reads this
    {
      && ValidLocaleCompare(localeCompare)
      && 1 <= currentPage
      && (currentPage == 1 || currentPage <= TotalPages(|data|))
      && multiset(data) <= multiset(seed)
      && WellFormed(sortConfig)
      && NoDuplicates(selectedRows)
    }

    /** Every selected id is the id of a row in the working list. */
    ghost predicate SelectionInData()
      reads this
    {
      forall x :: x in selectedRows ==> x in Ids(data)
    }

    constructor (seed: seq<Product>, localeCompare: LocaleCompare)
      requires ValidLocaleCompare(localeCompare)
      ensures Valid() && SelectionInData()
      ensures this.seed == seed && this.localeCompare == localeCompare
      ensures data == seed && currentPage == 1 && sortConfig == Unsorted
      ensures selectedRows == [] && columnWidths == Columns.InitialWidths
    {
      this.seed := seed;
      this.localeCompare := localeCompare;
      data := seed;
      currentPage := 1;
      sortConfig := Unsorted;
      selectedRows := [];
      columnWidths := Columns.InitialWidths;
    }

    /** Whenever the list has rows, the current page shows some of them. */
    lemma CurrentPageShowsRows()
      requires Valid()
      ensures data != [] ==> |PageRows(data, currentPage)| > 0
    {
      PageNonEmptyIff(data, currentPage);
    }

    /** `goToNextPage`: advance unless already on the last page. */
    method GoToNextPage()
      requires Valid()
      modifies this`currentPage
      ensures Valid()
      ensures old(currentPage) < TotalPages(|data|) ==> currentPage == old(currentPage) + 1
      ensures old(currentPage) >= TotalPages(|data|) ==> currentPage == old(currentPage)
    {
      if currentPage < TotalPages(|data|) {
        currentPage := currentPage + 1;
      }
    }

    /** `goToPrevPage`: go back unless already on page 1. */
    method GoToPrevPage()
      requires Valid()
      modifies this`currentPage
      ensures Valid()
      ensures old(currentPage) > 1 ==> currentPage == old(currentPage) - 1
      ensures old(currentPage) == 1 ==> currentPage == 1
    {
      if currentPage > 1 {
        currentPage := currentPage - 1;
      }
    }

    /**
      `sortData`: a press on `key`'s header. The third press in a row restores
      the seed itself, so rows deleted since come back, and it leaves the page
      cursor where it was; the other presses sort the current list stably and
      go to page 1.
    */
    method SortData(key: SortKey)
      requires Valid()
      modifies this`data, this`sortConfig, this`currentPage
      ensures Valid()
      ensures sortConfig == NextSortConfig(old(sortConfig), key)
      ensures sortConfig == Unsorted ==> data == seed && currentPage == old(currentPage)
      ensures sortConfig != Unsorted ==>
        && data == InsertionSort(Order(localeCompare, key, sortConfig.direction.value), old(data))
        && currentPage == 1
      ensures old(SelectionInData()) ==> SelectionInData()
    {
      var direction := Ascending;
      if sortConfig.key == Some(key) && sortConfig.direction == Some(Ascending) {
        direction := Descending;
      } else if sortConfig.key == Some(key) && sortConfig.direction == Some(Descending) {
        SubMultisetIds(data, seed);
        TotalPagesMonotone(|data|, |seed|);
        data := seed;
        sortConfig := Unsorted;
        return;
      }
      var order := Order(localeCompare, key, direction);
      var sorted := SortedCopy(data, order);
      SortKeepsRows(order, data);
      data := sorted;
      sortConfig := SortConfig(Some(key), Some(direction));
      currentPage := 1;
    }

    /** `handleRowSelect`: flip whether `id` is selected. */
    method HandleRowSelect(id: int)
      requires Valid()
      modifies this`selectedRows
      ensures Valid()
      ensures selectedRows == Toggle(old(selectedRows), id)
      ensures old(SelectionInData()) && id in Ids(data) ==> SelectionInData()
    {
      ToggleKeepsNoDuplicates(selectedRows, id);
      selectedRows := Toggle(selectedRows, id);
    }

    /** The header checkbox's `onChange`: select or unselect every row on the current page. */
    method SelectAllOnPage(checked: bool)
      requires Valid()
      modifies this`selectedRows
      ensures Valid()
      ensures var pageIds := Ids(PageRows(data, currentPage));
        selectedRows == if checked then SelectAll(old(selectedRows), pageIds)
                        else UnselectAll(old(selectedRows), pageIds)
      ensures old(SelectionInData()) ==> SelectionInData()
    {
      var pageIds := Ids(PageRows(data, currentPage));
      PageRowsInData(data, currentPage);
      if checked {
        selectedRows := SelectAll(selectedRows, pageIds);
      } else {
        WithoutKeepsNoDuplicates(selectedRows, pageIds);
        selectedRows := UnselectAll(selectedRows, pageIds);
      }
    }

    /**
      `deleteSelectedRows`: keep the unselected rows, clear the selection and go
      to page 1; the sort configuration is left as it was.
    */
    method DeleteSelectedRows()
      requires Valid()
      modifies this`data, this`selectedRows, this`currentPage
      ensures Valid() && SelectionInData()
      ensures data == Unselected(old(data), old(selectedRows))
      ensures selectedRows == [] && currentPage == 1
      ensures SelectedTotal(data, selectedRows) == 0
    {
      UnselectedMembers(data, selectedRows);
      data := Unselected(data, selectedRows);
      selectedRows := [];
      currentPage := 1;
      NothingSelectedTotalsZero(data);
    }

    /** `handleColumnResize`: set one column's width, unclamped. */
    method HandleColumnResize(column: Columns.Column, newWidth: int)
      requires Valid()
      modifies this`columnWidths
      ensures Valid()
      ensures columnWidths == Columns.Resized(old(columnWidths), column, newWidth)
      ensures Columns.Width(columnWidths, column) == newWidth
      ensures forall c :: c != column ==> Columns.Width(columnWidths, c) == Columns.Width(old(columnWidths), c)
    {
      columnWidths := Columns.Resized(columnWidths, column, newWidth);
    }

    /**
      The press on a column's resize handle: it records where the pointer was and
      how wide the column was at that moment, for every move of the drag to use.
    */
    method OnMouseDown(column: Columns.Column, pageX: int) returns (startX: int, initialWidth: int)
      ensures startX == pageX
      ensures initialWidth == Columns.Width(columnWidths, column)
    {
      startX := pageX;
      initialWidth := Columns.Width(columnWidths, column);
    }

    /**
      A mouse move during a drag that started at `startX` when the column was
      `initialWidth` wide, the two values `OnMouseDown` returned for this drag.
    */
    method OnMouseMove(column: Columns.Column, initialWidth: int, startX: int, pageX: int)
      requires Valid()
      modifies this`columnWidths
      ensures Valid()
      ensures columnWidths == Columns.Resized(old(columnWidths), column, Columns.DragWidth(initialWidth, startX, pageX))
    {
      HandleColumnResize(column, Columns.DragWidth(initialWidth, startX, pageX));
    }
  }
}
