# DataTable: sort order and row selection

This project models the logic of the React `DataTable` component
(`src/components/DataTable/DataTable.tsx`, lines 28-137), with its JSX left aside.
It proves properties of three parts.

- **Sort state.** A click on a column header produces the next `SortState {column, order}`.
  A sortable column cycles ascending, descending, unsorted. A non-sortable column changes nothing.
- **Sorted view.** `sortedData` copies `data` and sorts the copy with a comparator.
  Null and undefined cells go last in both directions. Strings are compared as strings.
  Numbers are compared by difference. Anything else is compared through `String()`.
  `Array.prototype.sort` is stable (section 23.1.3.30 of ECMAScript 2023, "Array.prototype.sort").
  The model therefore sorts with a stable insertion sort.
- **Selection.** `getRowKey` gives each row its identity. `handleRowSelection` and
  `handleSelectAll` update the set of selected identities and report the selected rows
  to `onRowSelect`, in `data` order. `isAllSelected` and `isPartiallySelected` drive the
  header checkbox.

Modules, in dependency order:

- `Wrappers`: `Option`.
- `Cells`: cell values, rows, row identities, and the string order used in place of `localeCompare`.
- `SortControl`: the sort-state machine.
- `Comparator`: the comparator function.
- `StableSort`: a stable sort for a comparator on a key.
- `SortedView`: `sortedData`.
- `Selection`: `getRowKey` and the selection computations.
- `Table`: the mounted component as a class. Its props are constants. `selectedRows` and
  `sortState` are fields. Every call to `onRowSelect` is appended to `notifications`.
- `RenderKeys`: the identity each displayed row's checkbox carries; see Findings.
- `Scenarios`: the repository's own test fixtures and the interactions its tests perform.

Cell values are `Null | Str | Num | Other`. A field that a row lacks reads as `Null`,
because the component treats `undefined` like `null` (`== null`, `??`).

The comparator orders a column consistently only when the column does not mix numbers
with strings or other values. `Comparator.MixedColumnHasCycle` shows three values that
form a cycle. So the ordering lemmas require a homogeneous column. Permutation and
nulls-last are proved for every column.

The view is a new sequence and `data` is a value, so sorting cannot change `data`.

## Model

| member | source | states |
|---|---|---|
| Cells.NumberText | src/components/DataTable/DataTable.tsx:94-95 | `String(n)` for an integer, used by `Cells.Text` for the mixed-type fallback: a non-empty text that starts with `-` exactly for a negative number, followed by decimal digits only, whose value (`Cells.DecimalValue`) is the magnitude of n. There is no leading zero: the digits start with `0` only for the text `"0"`. |
| Cells.DigitsValue | src/components/DataTable/DataTable.tsx:94-95 | The decimal digits produced for a natural number denote that number. |
| Cells.LexCompare | src/components/DataTable/DataTable.tsx:84-88 | The string comparison standing in for `localeCompare` returns -1, 0 or 1. It is 0 exactly when the strings are equal. The empty string never comes after another string. |
| Cells.LexAntisymmetric | src/components/DataTable/DataTable.tsx:84-88 | Swapping the two strings negates the result. |
| Cells.LexTransitive | src/components/DataTable/DataTable.tsx:84-88 | "Comes no later than" is transitive on strings. |
| SortControl.NextOrder | src/components/DataTable/DataTable.tsx:63 | The order on the current column steps asc → desc, desc → none, and none → asc. |
| SortControl.NextOrderPeriodThree | src/components/DataTable/DataTable.tsx:63 | Each step changes the order, and three steps return to the starting order. |
| SortControl.SortUpdater | src/components/DataTable/DataTable.tsx:61-67 | A click on another column gives that column, ascending. A click on the current column advances the order. The column is kept exactly when the new order is present, so the result is well formed. |
| SortControl.NextSortState | src/components/DataTable/DataTable.tsx:58-67 | A click on a non-sortable column leaves the state unchanged. A click on a sortable column gives a well-formed state. |
| SortControl.NextSortStatePreservesWellFormed | src/components/DataTable/DataTable.tsx:49-66 | The initial state has "column absent exactly when order absent", and every transition keeps it. |
| SortControl.CurrentColumnCycle | src/components/DataTable/DataTable.tsx:62-64 | On the current sortable column, asc becomes desc and desc becomes `{null, null}`. |
| SortControl.ThreeClicksUnsort | src/components/DataTable/DataTable.tsx:61-67 | From any state naming another column, three clicks on a sortable column give asc, desc and then unsorted. |
| SortControl.NonSortableIsInert | src/components/DataTable/DataTable.tsx:58-59 | Any number of clicks on a non-sortable column leave the state unchanged. |
| SortControl.ClicksState | src/components/DataTable/DataTable.tsx:49 | Starting from the initial `{null, null}`, after n clicks on one sortable column the state is fixed by n mod 3: unsorted, asc or desc. |
| SortControl.ClicksPeriodThree | src/components/DataTable/DataTable.tsx:49 | The states after n and n + 3 clicks are equal. The table is unsorted exactly when n is a multiple of 3. |
| Comparator.Compare | src/components/DataTable/DataTable.tsx:80-98 | Two null or undefined values tie. A null value comes after a present one, in either direction. |
| Comparator.DirectionReversesPresentValues | src/components/DataTable/DataTable.tsx:84-98 | For two present values, descending is ascending with the arguments swapped. A comparison that involves null is the same in both directions. |
| Comparator.CompareCompatible | src/components/DataTable/DataTable.tsx:84-98 | Two numbers compare by difference. Two values that are not numbers compare as their `String()` texts. |
| Comparator.CompareAntisymmetric | src/components/DataTable/DataTable.tsx:80-98 | Swapping the arguments flips the sign and keeps ties, for all values. |
| Comparator.CompareTransitive | src/components/DataTable/DataTable.tsx:80-98 | "Comes no later than" is transitive when no number is compared with a string or other non-numeric value. |
| Comparator.TieTransitive | src/components/DataTable/DataTable.tsx:80-98 | Ties are transitive under the same condition. |
| Comparator.MixedColumnHasCycle | src/components/DataTable/DataTable.tsx:90-98 | On a column mixing numbers and strings, 9 < 10 by difference, 10 < "5" and "5" < 9 through `String()`: a cycle. |
| StableSort.Insert | src/components/DataTable/DataTable.tsx:76 | One insertion step returns its input with the element added, as a multiset. |
| StableSort.SortBy | src/components/DataTable/DataTable.tsx:76 | The sorted copy is a permutation of the input. |
| StableSort.SortByNullsLast | src/components/DataTable/DataTable.tsx:80-82 | In the result, no null key comes before a present key, for any key and either direction. |
| StableSort.SortBySorted | src/components/DataTable/DataTable.tsx:76-99 | On a column of only numbers, or only strings and other values, every pair i < j is in comparator order. |
| StableSort.SortByStable | src/components/DataTable/DataTable.tsx:76 | The elements that tie with a value keep their relative input order. This holds for null on any column. |
| StableSort.SortByMap | src/components/DataTable/DataTable.tsx:76 | Sorting commutes with a relabelling that preserves the key. |
| SortedView.FindColumn | src/components/DataTable/DataTable.tsx:73 | It returns none exactly when no column has the key. Otherwise it returns the first column that has the key. |
| SortedView.SortColumn | src/components/DataTable/DataTable.tsx:71-74 | The guard `sortState.column && sortState.order` (`SortedView.Active`, which treats the key `""` as false) plus `columns.find`. A column is found only under an active state, and it is the first column with the named key. None is found exactly when the state is inactive or no column has the key. |
| SortedView.SortedData | src/components/DataTable/DataTable.tsx:70-76 | The view is a permutation of `data` of the same length. With no sort in force it is `data` itself. |
| SortedView.UnsortedViewIsData | src/components/DataTable/DataTable.tsx:71-74 | Unsorted, or sorted by a key that names no column, the view is `data` in its own order. |
| SortedView.SortedViewNullsLast | src/components/DataTable/DataTable.tsx:80-82 | Every row with a null or undefined sort field comes after every row with a value, in both directions. |
| SortedView.SortedViewOrdered | src/components/DataTable/DataTable.tsx:76-99 | On a homogeneous column, the view is ordered by the comparator. |
| SortedView.SortedViewStable | src/components/DataTable/DataTable.tsx:76 | Rows that tie, such as nulls or equal numbers, keep their order from `data`. |
| SortedView.SortedViewNumbers | src/components/DataTable/DataTable.tsx:90-91 | On a numeric column, asc is non-decreasing and desc non-increasing over the rows with numbers. |
| SortedView.ClickCycleViews | src/components/DataTable/DataTable.tsx:61-76 | The views after one, two and three clicks on a column are ascending, descending, and `data` again. |
| Selection.RowKey | src/components/DataTable/DataTable.tsx:51-56 | A key function's result, else the row's field, else the position when the field is null or undefined. |
| Selection.RowKeyPositionIndependent | src/components/DataTable/DataTable.tsx:55 | The identity is the same at every position exactly when the fallback is not used. |
| Selection.UpdateSelection | src/components/DataTable/DataTable.tsx:103-108 | The key is in the new set exactly when `selected`. Every other key is as before. |
| Selection.UpdateSelectionIdempotent | src/components/DataTable/DataTable.tsx:103-108 | Repeating the same update changes nothing. |
| Selection.AllKeys | src/components/DataTable/DataTable.tsx:123 | `new Set(data.map(getRowKey))` holds the identity of every row, and has no more keys than there are rows. |
| Selection.KeysFrom | src/components/DataTable/DataTable.tsx:123 | The set contains the identity of every row. |
| Selection.KeysFromMember | src/components/DataTable/DataTable.tsx:123 | Every member of the set is the identity of some row. |
| Selection.KeysFromCardinality | src/components/DataTable/DataTable.tsx:123 | The set has at most as many keys as rows, and exactly as many when the identities are distinct. |
| Selection.SelectedIndices | src/components/DataTable/DataTable.tsx:114-116 | The positions kept are strictly increasing. Each one's identity is selected. Every selected position is kept. |
| Selection.SelectedData | src/components/DataTable/DataTable.tsx:114-116 | `data.filter(...)`: the report is no longer than `data`, and every reported row is a row of `data`. Its order and contents are pinned down by `Selection.SelectedIndices` and `Selection.SelectedDataMembers`. |
| Selection.SelectedDataMembers | src/components/DataTable/DataTable.tsx:114-116 | A row is reported exactly when some position holding it has a selected identity. |
| Selection.SelectedDataOfFullSelection | src/components/DataTable/DataTable.tsx:114-116 | When every row's identity is selected, the report is `data`. |
| Selection.SelectedDataOfEmptySelection | src/components/DataTable/DataTable.tsx:114-116 | When no row's identity is selected, the report is empty. |
| Selection.SelectedDataOfAllKeys | src/components/DataTable/DataTable.tsx:123-126 | Filtering `data` by all its identities gives `data`. So `onRowSelect(data)` is the filtered report. |
| Selection.IsAllSelected | src/components/DataTable/DataTable.tsx:136 | "All selected" implies a non-empty set. |
| Selection.IsPartiallySelected | src/components/DataTable/DataTable.tsx:137 | "Partially selected" implies a non-empty set and excludes "all selected". |
| Selection.HeaderAfterSelectAll | src/components/DataTable/DataTable.tsx:121-137 | After select-all, the header is checked exactly when there are rows with distinct identities. It is indeterminate exactly when two rows share one. |
| Selection.AllSelectedMeansEveryRow | src/components/DataTable/DataTable.tsx:136 | With distinct identities, a set drawn from them reads "all selected" exactly when it is every identity. |
| Table.DataTable.constructor | src/components/DataTable/DataTable.tsx:35-49 | The first render has no selection and the `{null, null}` sort state. `rowKey` defaults to `'id'`. |
| Table.DataTable.View | src/components/DataTable/DataTable.tsx:70-100 | The displayed rows are a permutation of `data`. |
| Table.DataTable.CheckboxKey | src/components/DataTable/DataTable.tsx:268-285 | As written, the key displayed row i passes is `getRowKey(sortedData[i], i)`. When that row lacks the key field, the key is the display position i. When no row uses the fallback, the key selects the displayed row. |
| Table.DataTable.Notify | src/components/DataTable/DataTable.tsx:113-131 | A call to `onRowSelect` is recorded exactly when the prop is present, and it records the given rows. |
| Table.DataTable.IsAllSelected | src/components/DataTable/DataTable.tsx:136 | The header reads "all selected" only for a non-empty set with as many keys as rows. |
| Table.DataTable.IsPartiallySelected | src/components/DataTable/DataTable.tsx:137 | The header reads "partially selected" only for a non-empty set, and never together with "all selected". |
| Table.DataTable.HandleSort | src/components/DataTable/DataTable.tsx:58-68 | The new sort state is the transition for the clicked column, and it stays well formed. |
| Table.DataTable.HandleRowSelection | src/components/DataTable/DataTable.tsx:102-119 | The set is updated for one key. When `onRowSelect` is present, one call is recorded with the filtered rows of the new set. |
| Table.DataTable.HandleSelectAll | src/components/DataTable/DataTable.tsx:121-134 | The set becomes every identity, or empty. One call is recorded with `data` or `[]`, which is the filtered report of the new set. |
| RenderKeys.RenderedKeysAsWritten | src/components/DataTable/DataTable.tsx:268-269 | As written, each displayed row is keyed by its position in the sorted view. |
| RenderKeys.SortedEntries | src/components/DataTable/DataTable.tsx:76 | Sorting rows paired with their `data` positions gives a permutation of those pairs. |
| RenderKeys.SortedEntriesRows | src/components/DataTable/DataTable.tsx:70-76 | Dropping the positions from the paired sort gives exactly the displayed view. |
| RenderKeys.SortedEntriesPositions | src/components/DataTable/DataTable.tsx:114-115 | Every carried position holds that row in `data`. |
| RenderKeys.RenderedKeySelectsItsRow | src/components/DataTable/DataTable.tsx:268-270 | The corrected key of displayed row i is the identity the notification gives the same row. Selecting it reports that row. |
| RenderKeys.AsWrittenKeySelectsItsRow | src/components/DataTable/DataTable.tsx:268-269 | As written, the key of displayed row i selects that row whenever no row of `data` uses the position fallback. |
| RenderKeys.RenderedKeysAgreeWithoutFallback | src/components/DataTable/DataTable.tsx:268-269 | When no row uses the position fallback, the as-written and corrected keys coincide. |
| RenderKeys.FallbackKeyReportsWrongRow | src/components/DataTable/DataTable.tsx:268-285 | With two id-less rows sorted by name, the first displayed row (Amy) carries key 0 as written, and selecting it reports `[Bob]`. The corrected key 1 reports `[Amy]`. |
| Scenarios.TestDataKeys | src/components/DataTable/DataTable.test.tsx:14-18 | The fixture rows have identities 1, 2 and 3, which are distinct. |
| Scenarios.NameClickSortsByName | src/components/DataTable/DataTable.test.tsx:114-119 | One click on "Name" gives Bob Johnson, Jane Smith, John Doe. |
| Scenarios.FirstRowSelectionReportsIt | src/components/DataTable/DataTable.test.tsx:79-82 | Selecting identity 1 reports `[testData[0]]`. |
| Scenarios.RowCheckboxClick | src/components/DataTable/DataTable.test.tsx:66-83 | Checking the first row's checkbox gives exactly one call, with `[testData[0]]`. The header is then indeterminate. |
| Scenarios.FallbackCheckboxClick | src/components/DataTable/DataTable.tsx:268-285 | Through the class: with rows Bob and Amy and no `id`, after one click on "Name" the first displayed row is Amy, and checking its checkbox records one call, with `[Bob]`. |
| Scenarios.SelectAllClick | src/components/DataTable/DataTable.test.tsx:85-102 | The header checkbox gives exactly one call, with `testData`. The header then reads all selected. |
| Scenarios.NameHeaderClick | src/components/DataTable/DataTable.test.tsx:104-120 | After a click on "Name", the first displayed row is Bob Johnson. |

## Left out

- Rendering is not modelled: JSX, `clsx` class strings, theme, striping, hover, widths and chevron highlighting (DataTable.tsx:139-306). They are presentation only.
- The loading and empty-state branches are not modelled. They are display choices.
- Column `render` callbacks are not modelled. They are opaque caller code.
- `localeCompare` is modelled as lexicographic order on code points (Unicode scalar values), not on UTF-16 code units. Real collation depends on the host locale.
- Numbers are modelled as mathematical integers. The source subtracts IEEE-754 doubles, so NaN, infinities and fractions are not covered.
- Cells.NumberText: gives plain decimal digits for every integer. JavaScript's `String()` switches to exponent form (`"1e+21"`) for magnitudes of 10^21 and more, which the model does not produce.
- `String()` of a non-numeric, non-string value is modelled as a text carried in the `Other` value. `Other` values are compared by that text only, so object identity in the selection `Set` is not modelled.
- StableSort.SortBy: ECMA-262 leaves the order "implementation-defined" when the comparator is not consistent, as on a mixed column. The model always gives the insertion-sort order there. The ordering lemmas require a homogeneous column.
- React memoisation (`useMemo`, `useCallback`) and re-render semantics are not modelled. Each `setState` is an immediate field update.
- Props that change between renders are not modelled. The class keeps `data`, `columns`, `rowKey` and the presence of `onRowSelect` constant.
- The `onRowSelect` callback is not called. The model records its arguments, and whatever it does is outside the model.
- src/components/InputField/InputField.tsx, the demo page, the stories and src/components/index.ts are not part of this model.

## Findings

| source | as written | input that shows it | evidently intended | confidence | as-written member | corrected member |
|---|---|---|---|---|---|---|
| src/components/DataTable/DataTable.tsx:268-269 | The displayed row's key is `getRowKey(record, index)`, where `index` is the row's position in the sorted view. The rows reported to `onRowSelect` are found by `getRowKey` at their position in `data` (lines 114-115). | `data = [{name: "Bob"}, {name: "Amy"}]` with no `id`, sorted by name ascending. The first displayed row is Amy with key 0. Checking it reports `[Bob]`. | Key each displayed row by its position in `data`, so that checking a row reports that row. | medium; not executed | RenderKeys.FallbackKeyReportsWrongRow | RenderKeys.RenderedKeySelectsItsRow |

`Table.DataTable` follows the code as written: `Table.DataTable.CheckboxKey` is the as-written key, and `Scenarios.FallbackCheckboxClick` plays the finding through the class. The corrected key is `RenderKeys.RenderedKeys`.
