# Product grid view-state model

A Dafny model of the state machine behind the `ProductTable` React component
(`src/component/ProductTable.tsx`): a paginated, sortable, column-resizable,
multi-select table over an in-memory list of products that shows the total price
of the selected rows.

The component's state becomes the class `ProductGrid.ProductTable`:

- `data`, the working list of `Product(id, name, price, available)` records;
- `currentPage`, 1-based, with a fixed page size `Paging.RowsPerPage` of 10;
- `sortConfig`, a key/direction pair in which `None` stands for `null`;
- `selectedRows`, the list of selected ids, used as a set;
- `columnWidths`, four pixel widths (`productId`, `name`, `price`, `available`).

The seed list (`productData`) and `String.prototype.localeCompare` are constructor
parameters (`seed`, `localeCompare`). Each handler is a method that changes only
the fields in its `modifies` clause. Every method keeps `Valid()`, which says:

- the page cursor is between 1 and the page count (or is 1 when the list is empty);
- the working list is a sub-multiset of the seed;
- the sort key and direction are set together;
- the selection holds no id twice;
- `localeCompare` is a consistent comparator (the constructor requires it).

The derived views are pure functions in their own modules:

- `Paging`: the page count and the page slice;
- `SortState`: the three-state sort toggle and the header glyph;
- `Sorting`: the comparators and a stable insertion sort, run in place on a copied array;
- `Selection`: the selection list operations;
- `Rows`: the delete filter and the selected total;
- `Columns`: the width map and the drag formula.

Two quirks of the source are kept as written:

- The third press on a sorted column sets `data` to the seed itself. `originalData`
  is rebuilt from `productData` on every render (ProductTable.tsx:20, :59), so rows
  deleted since then come back.
- That "restore" press does not reset `currentPage`. The model shows the cursor stays
  in range anyway, because the seed is never shorter than the working list.

The selection is a list used as a set: `handleRowSelect` appends and filters, and the
header checkbox rebuilds the list through a `Set`. The model proves the list never
holds an id twice. It also proves the selection stays inside the working list
whenever a toggled id comes from the list, which is the only way the rendered
checkboxes can call it.

## Model

| member | source | states |
|---|---|---|
| `Products.Ids` | src/component/ProductTable.tsx:138-140 | no contract; `rows.map(product => product.id)`, as the header checkbox applies it to the current page (also :145-147); ids of a page lie in the list by `Paging.PageRowsInData` |
| `Paging.TotalPages` | src/component/ProductTable.tsx:31 | the page count is the least whole number of 10-row pages that holds every row (ceil of length / 10) |
| `Paging.PageRows` | src/component/ProductTable.tsx:32-35 | the visible page has at most 10 rows, the exact clipped length, and row k is row (page-1)*10+k of the list |
| `Paging.PageNonEmptyIff` | src/component/ProductTable.tsx:31-35 | a page shows rows if and only if its number is at most the page count |
| `Paging.PageFullBeforeLast` | src/component/ProductTable.tsx:31-35 | every page before the last one holds exactly 10 rows |
| `Paging.PagesCoverData` | src/component/ProductTable.tsx:31-35 | reading pages 1 to the page count in turn gives back the whole list, in order, each row once |
| `Paging.PageRowsInData` | src/component/ProductTable.tsx:32-35 | every row, and every id, on a page belongs to the working list |
| `ProductGrid.ProductTable.GoToNextPage` | src/component/ProductTable.tsx:37-41 | advances the cursor by one exactly when it is below the page count, otherwise leaves it; nothing else changes and the invariant holds |
| `ProductGrid.ProductTable.GoToPrevPage` | src/component/ProductTable.tsx:43-47 | moves back by one exactly when the cursor is above 1, so it never drops below 1 |
| `ProductGrid.ProductTable.CurrentPageShowsRows` | src/component/ProductTable.tsx:31-47 | in any reachable state, a non-empty list shows at least one row on the current page |
| `SortState.NextSortConfig` | src/component/ProductTable.tsx:51-62 | a press yields a well-formed config: (key, ascending) becomes (key, descending), (key, descending) clears the sort and is the only state that does, and any other prior key starts the pressed column ascending |
| `SortState.SortCycle` | src/component/ProductTable.tsx:53-62 | repeated presses cycle ascending, descending, unsorted: three presses from the column's own states return to the start, and the fourth press repeats the first |
| `SortState.SortIconFor` | src/component/ProductTable.tsx:87-96 | the neutral glyph shows exactly when the column is not the key; the ascending and descending glyphs show exactly for that column's two directions |
| `SortState.WellFormedHasIcon` | src/component/ProductTable.tsx:87-96 | when key and direction move together, the "no glyph" case never happens |
| `SortState.IconsAfterPress` | src/component/ProductTable.tsx:83-96 | after a press every other column shows the neutral glyph and the pressed one shows a glyph |
| `Sorting.KeyCompare` | src/component/ProductTable.tsx:64-80 | no contract; the ascending comparator: price difference for price, `localeCompare` on the name or availability string otherwise |
| `Sorting.Compare` | src/component/ProductTable.tsx:64-80 | no contract; descending passes the operands of the ascending comparator swapped; its totality and transitivity are `Sorting.LeTotal` and `Sorting.LeTransitive` |
| `Sorting.InsertionSort` | src/component/ProductTable.tsx:64-80 | no contract; the stable sort standing for `Array.prototype.sort`, whose properties are the `Sorting.InsertionSort*` lemmas below |
| `Sorting.LeTotal` | src/component/ProductTable.tsx:64-80 | under a consistent `localeCompare`, any two rows are ordered one way or the other by each comparator and direction |
| `Sorting.LeTransitive` | src/component/ProductTable.tsx:64-80 | the "may come before" relation of every comparator and direction is transitive |
| `Sorting.InsertionSortSorted` | src/component/ProductTable.tsx:64-80 | the sorted list is ordered by the key's comparator: price difference, or string collation, with operands swapped for descending |
| `Sorting.InsertionSortPermutes` | src/component/ProductTable.tsx:50-82 | sorting neither adds, drops nor duplicates a row (same multiset) |
| `Sorting.InsertionSortStable` | src/component/ProductTable.tsx:64-80 | rows that compare equal keep their prior relative order |
| `Sorting.ReverseSorted` | src/component/ProductTable.tsx:64-80 | read backwards, a list sorted ascending by a key is sorted descending by it, because descending swaps the comparator's operands |
| `Sorting.SortedUnique` | src/component/ProductTable.tsx:64-80 | two sorted lists holding the same rows are equal when only identical rows compare equal |
| `Sorting.DescendingReversesAscending` | src/component/ProductTable.tsx:53-80 | when no two different rows tie on the key, pressing the column again after an ascending sort yields exactly the ascending order reversed |
| `Sorting.InsertAt` | src/component/ProductTable.tsx:64-80 | inserting into a sorted list places the row right before the first row that must follow it |
| `Sorting.InsertLast` | src/component/ProductTable.tsx:64-80 | one pass of the in-place sort shifts the row left past the larger rows and reports where it landed |
| `Sorting.SortInPlace` | src/component/ProductTable.tsx:64-80 | the array sorted in place ends up holding the stable sort of its old contents |
| `Sorting.SortedCopy` | src/component/ProductTable.tsx:50-82 | sorting a copy of the list in an array returns the stable sort of the list |
| `ProductGrid.ProductTable.SortData` | src/component/ProductTable.tsx:49-85 | a press updates the config by the toggle; unsorting sets the list to the seed and keeps the page, and any other press stable-sorts the current list and goes to page 1; the invariant holds and the selection stays inside the list |
| `Selection.Without` | src/component/ProductTable.tsx:148-150 | the `filter` that drops ids (also the one of :101) never yields more values than it is given; which values it keeps is `Selection.WithoutMembers` |
| `Selection.WithoutMembers` | src/component/ProductTable.tsx:148-150 | the filter keeps exactly the values outside the removed ids |
| `Selection.WithoutAppend` | src/component/ProductTable.tsx:148-150 | the filter works value by value, so what it keeps stays in order |
| `Selection.WithoutKeepsNoDuplicates` | src/component/ProductTable.tsx:148-150 | filtering a list with no repeats gives a list with no repeats |
| `Selection.Toggle` | src/component/ProductTable.tsx:98-104 | the toggled id is in the result if and only if it was not selected; every other id keeps its membership |
| `Selection.ToggleKeepsNoDuplicates` | src/component/ProductTable.tsx:98-104 | toggling never introduces a duplicate id |
| `Selection.ToggleTwice` | src/component/ProductTable.tsx:98-104 | toggling an unselected id twice gives back the same list |
| `Selection.AddNew` | src/component/ProductTable.tsx:141-143 | what a `Set` already holding some values adds, in insertion order, is never more values than it is given; which values is `Selection.AddNewMembers` |
| `Selection.Dedup` | src/component/ProductTable.tsx:141-143 | no contract; `[...new Set(s)]`, the values a `Set` starting empty adds |
| `Selection.AddNewMembers` | src/component/ProductTable.tsx:141-143 | the `Set` adds exactly the values not already present, none twice |
| `Selection.AddNewAppend` | src/component/ProductTable.tsx:141-143 | values with no repeats, none present yet, are added in their order and then count as present |
| `Selection.SelectAll` | src/component/ProductTable.tsx:137-143 | ticking gives the union of the old selection and the page ids, with no duplicates |
| `Selection.SelectAllAppends` | src/component/ProductTable.tsx:137-143 | ticking keeps the old selection first, in its order, followed by the page ids not yet selected, each once |
| `Selection.SelectAllIdempotent` | src/component/ProductTable.tsx:137-143 | ticking twice is the same as ticking once |
| `Selection.UnselectAll` | src/component/ProductTable.tsx:144-151 | clearing removes exactly the page ids, so other pages' selections stay |
| `Selection.SelectThenUnselect` | src/component/ProductTable.tsx:136-152 | ticking then clearing the header checkbox leaves exactly the other pages' selections, in order |
| `ProductGrid.ProductTable.HandleRowSelect` | src/component/ProductTable.tsx:98-104 | the selection becomes the toggle of the old one; no duplicates; the selection stays inside the list when the id is a listed row's |
| `ProductGrid.ProductTable.SelectAllOnPage` | src/component/ProductTable.tsx:136-152 | checked selects, unchecked unselects, the ids of the current page, and the selection stays inside the list |
| `Rows.Unselected` | src/component/ProductTable.tsx:111-113 | the deletion filter never yields more rows than the list has; which rows it keeps is `Rows.UnselectedMembers` |
| `Rows.Chosen` | src/component/ProductTable.tsx:106-107 | the filter for selected rows never yields more rows than the list has; which rows it keeps is `Rows.ChosenMembers` |
| `Rows.PriceSum` | src/component/ProductTable.tsx:108 | no contract; the `reduce` adding prices from 0 |
| `Rows.PriceSumAppend` | src/component/ProductTable.tsx:108 | the sum over two lists joined is the sum of the two sums |
| `Rows.SelectedTotal` | src/component/ProductTable.tsx:106-108 | no contract; `totalSelectedAmount`, the sum of the chosen rows' prices, whose properties are the `Rows.*Total*` and `Rows.SelectedPlusKept` lemmas |
| `Rows.ChosenMembers` | src/component/ProductTable.tsx:106-107 | the total's filter keeps exactly the listed rows whose id is selected |
| `Rows.ChosenAndUnselected` | src/component/ProductTable.tsx:106-113 | the rows the total counts and the rows deletion keeps together make up the whole list (same multiset) |
| `Rows.UnselectedMembers` | src/component/ProductTable.tsx:111-113 | deletion keeps exactly the rows whose id is unselected, and never adds or duplicates a row |
| `Rows.UnselectedAppend` | src/component/ProductTable.tsx:111-113 | deletion filters row by row, so the kept rows keep their relative order |
| `Rows.UnselectedNone` | src/component/ProductTable.tsx:110-117 | with nothing selected the filter keeps the list unchanged |
| `Rows.NothingSelectedTotalsZero` | src/component/ProductTable.tsx:106-108 | an empty selection totals 0 |
| `Rows.SelectedPlusKept` | src/component/ProductTable.tsx:106-117 | the selected total plus the total of the rows a deletion keeps equals the whole list's total |
| `Rows.SelectedTotalByMembership` | src/component/ProductTable.tsx:106-108 | the total depends only on which listed ids are selected; order, repeats and ids with no row contribute nothing |
| `Rows.SelectedTotalBounds` | src/component/ProductTable.tsx:106-108 | with non-negative prices the total lies between 0 and the whole list's total |
| `ProductGrid.ProductTable.DeleteSelectedRows` | src/component/ProductTable.tsx:110-117 | the list keeps exactly the unselected rows, in order; the selection empties so the total is 0; the page becomes 1; the sort config is untouched |
| `Columns.Resized` | src/component/ProductTable.tsx:120-125 | the resized column takes the new width, unclamped, and the other three keep theirs |
| `Columns.ResizedTwice` | src/component/ProductTable.tsx:120-125 | a later resize of the same column overrides an earlier one |
| `Columns.ResizedCommute` | src/component/ProductTable.tsx:120-125 | resizes of different columns do not interfere |
| `Columns.DragWidth` | src/component/ProductTable.tsx:163 | the new width moves with the pointer: the width at press time when the pointer is back at the start, wider to the right, narrower to the left |
| `Columns.Dragged` | src/component/ProductTable.tsx:158-174 | the widths after each move of one drag: every column but the dragged one keeps its width |
| `Columns.DragEndsAtLastMove` | src/component/ProductTable.tsx:158-174 | after any sequence of moves in one drag, the column has the width the last pointer position gives and the others are unchanged |
| `ProductGrid.ProductTable.HandleColumnResize` | src/component/ProductTable.tsx:120-125 | only the named column's width changes, to the given value |
| `ProductGrid.ProductTable.OnMouseDown` | src/component/ProductTable.tsx:158-160 | the press records the pointer position and the column's current width as the drag's start |
| `ProductGrid.ProductTable.OnMouseMove` | src/component/ProductTable.tsx:162-165 | a move during a drag sets the column to the width at press time plus the pointer's travel |
| `ProductGrid.ProductTable.constructor` | src/component/ProductTable.tsx:10-29 | the grid starts on page 1, unsorted, with nothing selected, the seed as its list and widths 100, 200, 150, 150 |

## Left out

- Rendering: the JSX markup, the table and buttons, and the `react-icons` components. The sort glyph is the four-way choice `SortState.SortIcon`.
- The DOM listener wiring for a drag (`addEventListener`/`removeEventListener`, ProductTable.tsx:167-173 and its three repeats). Only the width arithmetic and the repeated resize are modelled.
- Floating point: prices are whole numbers (cents), so sums and price differences are exact. The `toFixed(2)` formatting of the total is not modelled.
- `localeCompare` is a parameter, not a collation. The model assumes only that swapping operands flips the sign and that "not after" is transitive.
- The algorithm of `Array.prototype.sort` is not modelled. It is replaced by a stable insertion sort that gives the same order under the comparator.
- The concrete `productData` import is not modelled. It is the constructor's `seed` parameter.
- React render semantics, namely handlers reading the state captured at render time and batched `setState` calls. Each handler is one atomic transition on the current state.
- The buttons' `disabled` conditions (ProductTable.tsx:287, 299, 312) are not modelled. The handlers are modelled as callable in every state. For example, `DeleteSelectedRows` with an empty selection keeps the list (`Rows.UnselectedNone`) and still sets page 1.
- ProductGrid.ProductTable.SortData: the key is one of the three columns. `sortData(null)` is never called by the markup, so it is not modelled.
- ProductGrid.ProductTable.HandleColumnResize: the column is one of the four. The source accepts any string key, which would add a new entry to the width object.
- Pixel widths and pointer positions are unbounded integers, not JavaScript numbers.
