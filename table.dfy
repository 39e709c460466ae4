/**
 A mounted `DataTable` (src/components/DataTable/DataTable.tsx:35-137): its props
 as constants, its two pieces of React state as fields, and the calls it makes
 to `onRowSelect` as a growing list.
 */
module Table {
  import opened Wrappers
  import opened Cells
  import opened SortControl
  import SortedView
  import opened Selection
  import RenderKeys

  class DataTable {
    const data: seq<Row>
    const columns: seq<Column>
    const rowKey: RowKeySpec
    /** Whether the `onRowSelect` prop was supplied. */
    const hasOnRowSelect: bool

    var selectedRows: set<Key>
    var sortState: SortState
    /** Every argument `onRowSelect` has been called with, oldest first. */
    var notifications: seq<seq<Row>>

    ghost predicate Valid()
      reads this
    {
      WellFormed(sortState)
    }

    /** The first render: no row selected, nothing sorted, `rowKey` defaulting to `'id'`. */
    constructor (data: seq<Row>, columns: seq<Column>, rowKey: Option<RowKeySpec>, hasOnRowSelect: bool)
      ensures Valid()
      ensures this.data == data && this.columns == columns && this.hasOnRowSelect == hasOnRowSelect
      ensures this.rowKey == (if rowKey.Some? then rowKey.value else DefaultRowKey)
      ensures selectedRows == {} && sortState == Unsorted && notifications == []
    {
      this.data := data;
      this.columns := columns;
      this.rowKey := if rowKey.Some? then rowKey.value else DefaultRowKey;
      this.hasOnRowSelect := hasOnRowSelect;
      selectedRows := {};
      sortState := Unsorted;
      notifications := [];
    }

    /** What a call to `onRowSelect` with `rows` adds to `notifications`. */
    function Notify(rows: seq<Row>): (r: seq<seq<Row>>)
      reads this
      ensures |r| == (if hasOnRowSelect then 1 else 0)
      ensures hasOnRowSelect ==> r[0] == rows
    {
      if hasOnRowSelect then [rows] else []
    }

    /** `sortedData` for the current state. */
    function View(): (r: seq<Row>)
      reads this
      ensures multiset(r) == multiset(data)
    {
      SortedView.SortedData(data, columns, sortState)
    }

    /** The key the checkbox of displayed row `i` passes to `HandleRowSelection`:
        `getRowKey(record, index)` with `index` the row's position in the view.
        A row without the key field is keyed by that display position, so the
        key selects the displayed row only when no row needs the fallback. */
    function CheckboxKey(i: nat): (k: Key)
      reads this
      requires i < |data|
      ensures UsesIndex(rowKey, View()[i]) ==> k == Num(i)
      ensures (forall j :: 0 <= j < |data| ==> !UsesIndex(rowKey, data[j])) ==> View()[i] in SelectedData(data, rowKey, {k})
    {
      RenderKeys.AsWrittenKeySelectsItsRow(data, columns, sortState, rowKey, i);
      RenderKeys.RenderedKeysAsWritten(data, columns, sortState, rowKey)[i]
    }

    /** The header checkbox's `checked`. */
    function IsAllSelected(): (r: bool)
      reads this
      ensures r ==> selectedRows != {} && |selectedRows| == |data|
    {
      Selection.IsAllSelected(selectedRows, |data|)
    }

    /** The header checkbox's `indeterminate`. */
    function IsPartiallySelected(): (r: bool)
      reads this
      ensures r ==> selectedRows != {} && !IsAllSelected()
    {
      Selection.IsPartiallySelected(selectedRows, |data|)
    }

    /** `handleSort(column)`: a click on a column header. */
    method HandleSort(column: Column)
      requires Valid()
      modifies this`sortState
      ensures Valid()
      ensures sortState == NextSortState(old(sortState), column)
    {
      if !column.sortable {
        return;
      }
      sortState := SortUpdater(sortState, column.key);
    }

    /** `handleRowSelection(key, selected)`: a row checkbox toggled. */
    method HandleRowSelection(key: Key, selected: bool)
      requires Valid()
      modifies this`selectedRows, this`notifications
      ensures Valid()
      ensures selectedRows == UpdateSelection(old(selectedRows), key, selected)
      ensures notifications == old(notifications) + Notify(SelectedData(data, rowKey, selectedRows))
    {
      var newSelectedRows := selectedRows;
      if selected {
        newSelectedRows := newSelectedRows + {key};
      } else {
        newSelectedRows := newSelectedRows - {key};
      }
      selectedRows := newSelectedRows;
      if hasOnRowSelect {
        var selectedData := SelectedData(data, rowKey, newSelectedRows);
        notifications := notifications + [selectedData];
      }
    }

    /** `handleSelectAll(selected)`: the header checkbox toggled. The rows it
        reports are exactly the rows of `data` that the new set selects. */
    method HandleSelectAll(selected: bool)
      requires Valid()
      modifies this`selectedRows, this`notifications
      ensures Valid()
      ensures selectedRows == if selected then AllKeys(data, rowKey) else {}
      ensures notifications == old(notifications) + Notify(if selected then data else [])
      ensures notifications == old(notifications) + Notify(SelectedData(data, rowKey, selectedRows))
    {
      SelectAllReport(data, rowKey, selected);
      if selected {
        var allKeys := AllKeys(data, rowKey);
        selectedRows := allKeys;
        if hasOnRowSelect {
          notifications := notifications + [data];
        }
      } else {
        selectedRows := {};
        if hasOnRowSelect {
          notifications := notifications + [[]];
        }
      }
    }
  }
}
