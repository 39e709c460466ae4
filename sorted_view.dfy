/**
 The row order the table displays: `sortedData`
 (src/components/DataTable/DataTable.tsx:70-100).
 */
module SortedView {
  import opened Wrappers
  import opened Cells
  import opened SortControl
  import opened Comparator
  import opened StableSort

  /** `columns.find(col => col.key === key)`: the first column with that key. */
  function FindColumn(columns: seq<Column>, key: string): (r: Option<Column>)
    ensures r.None? <==> forall i :: 0 <= i < |columns| ==> columns[i].key != key
    ensures r.Some? ==> exists i :: 0 <= i < |columns| && columns[i] == r.value && FirstWithKey(columns, key, i)
  {
    if columns == [] then None
    else if columns[0].key == key then
      assert FirstWithKey(columns, key, 0);
      Some(columns[0])
    else
      var r := FindColumn(columns[1..], key);
      assert r.Some? ==> exists i :: 0 < i < |columns| && columns[i] == r.value && FirstWithKey(columns, key, i) by {
        if r.Some? {
          var i :| 0 <= i < |columns[1..]| && columns[1..][i] == r.value && FirstWithKey(columns[1..], key, i);
          assert columns[i + 1] == r.value;
          assert FirstWithKey(columns, key, i + 1) by {
            forall j | 0 <= j < i + 1 ensures columns[j].key != key {
              if j > 0 {
                assert columns[j] == columns[1..][j - 1];
              }
            }
          }
        }
      }
      assert r.None? ==> forall i :: 0 <= i < |columns| ==> columns[i].key != key by {
        if r.None? {
          forall i | 0 <= i < |columns| ensures columns[i].key != key {
            if i > 0 {
              assert columns[i] == columns[1..][i - 1];
            }
          }
        }
      }
      r
  }

  /** Column `i` has key `key` and no column before it has. */
  predicate FirstWithKey(columns: seq<Column>, key: string, i: nat)
  {
    i < |columns| && columns[i].key == key && forall j :: 0 <= j < i ==> columns[j].key != key
  }

  /** `record => record[field]`. */
  function CellOf(field: string): Row -> Value
  {
    r => Cell(r, field)
  }

  /** The guard `sortState.column && sortState.order`: both present, and the
      column key not the empty string, which JavaScript treats as false. */
  predicate Active(st: SortState)
  {
    st.column.Some? && st.column.value != "" && st.order.Some?
  }

  /** The sort column in force: the first column whose key the state names, when
      the state is active and there is one. */
  function SortColumn(columns: seq<Column>, st: SortState): (r: Option<Column>)
    ensures r.Some? ==> Active(st) && r.value.key == st.column.value && r.value in columns
    ensures r.Some? ==> exists i :: 0 <= i < |columns| && columns[i] == r.value && FirstWithKey(columns, st.column.value, i)
    ensures r.None? <==> !Active(st) || forall i :: 0 <= i < |columns| ==> columns[i].key != st.column.value
  {
    if Active(st) then FindColumn(columns, st.column.value) else None
  }

  /** `sortedData`: `data` itself when no sort is in force, otherwise a sorted
      copy. Either way it is a permutation of `data`, and `data` is a value that
      sorting cannot change. */
  function SortedData(data: seq<Row>, columns: seq<Column>, st: SortState): (r: seq<Row>)
    ensures multiset(r) == multiset(data)
    ensures |r| == |data|
    ensures SortColumn(columns, st).None? ==> r == data
  {
    match SortColumn(columns, st)
    case None => data
    case Some(column) => SortBy(data, CellOf(column.dataIndex), st.order.value)
  }

  /** Unsorted, or sorted by a key that names no column, the view is `data` in its own order. */
  lemma UnsortedViewIsData(data: seq<Row>, columns: seq<Column>, st: SortState)
    requires !Active(st) || forall i :: 0 <= i < |columns| ==> columns[i].key != st.column.value
    ensures SortedData(data, columns, st) == data
  {
  }

  /** In both directions, every row whose sort field is null or undefined comes
      after every row whose sort field holds a value. */
  lemma {:induction false} SortedViewNullsLast(data: seq<Row>, columns: seq<Column>, st: SortState, column: Column)
    requires SortColumn(columns, st) == Some(column)
    ensures forall i, j :: 0 <= i < j < |data| && Cell(SortedData(data, columns, st)[i], column.dataIndex).Null?
                           ==> Cell(SortedData(data, columns, st)[j], column.dataIndex).Null?
  {
    SortByNullsLast(data, CellOf(column.dataIndex), st.order.value);
  }

  /** On a column that does not mix numbers with strings, the view is ordered by
      the comparator in the chosen direction. */
  lemma {:induction false} SortedViewOrdered(data: seq<Row>, columns: seq<Column>, st: SortState, column: Column)
    requires SortColumn(columns, st) == Some(column)
    requires Homogeneous(data, CellOf(column.dataIndex))
    ensures SortedBy(SortedData(data, columns, st), CellOf(column.dataIndex), st.order.value)
  {
    SortBySorted(data, CellOf(column.dataIndex), st.order.value);
  }

  /** Rows whose sort fields tie keep their relative order from `data`; for rows
      whose field is null or undefined this holds of any column. */
  lemma {:induction false} SortedViewStable(data: seq<Row>, columns: seq<Column>, st: SortState, column: Column, v: Value)
    requires SortColumn(columns, st) == Some(column)
    requires TieConsistent(data, CellOf(column.dataIndex), v)
    ensures Tied(SortedData(data, columns, st), CellOf(column.dataIndex), v, st.order.value)
         == Tied(data, CellOf(column.dataIndex), v, st.order.value)
  {
    SortByStable(data, CellOf(column.dataIndex), v, st.order.value);
  }

  /** On a numeric column, ascending is non-decreasing and descending is
      non-increasing among the rows whose field holds a number. */
  lemma {:induction false} SortedViewNumbers(data: seq<Row>, columns: seq<Column>, st: SortState, column: Column, i: nat, j: nat)
    requires SortColumn(columns, st) == Some(column)
    requires NumericOnly(data, CellOf(column.dataIndex))
    requires i < j < |data|
    requires Cell(SortedData(data, columns, st)[i], column.dataIndex).Num?
    requires Cell(SortedData(data, columns, st)[j], column.dataIndex).Num?
    ensures st.order == Some(Asc) ==>
      Cell(SortedData(data, columns, st)[i], column.dataIndex).n <= Cell(SortedData(data, columns, st)[j], column.dataIndex).n
    ensures st.order == Some(Desc) ==>
      Cell(SortedData(data, columns, st)[i], column.dataIndex).n >= Cell(SortedData(data, columns, st)[j], column.dataIndex).n
  {
    var key := CellOf(column.dataIndex);
    SortBySorted(data, key, st.order.value);
    var view := SortedData(data, columns, st);
    assert Compare(key(view[i]), key(view[j]), st.order.value) <= 0;
  }

  /** The three views one sortable column cycles through: ascending, descending,
      and after the third click `data` in its original order. */
  lemma {:induction false} ClickCycleViews(data: seq<Row>, columns: seq<Column>, column: Column)
    requires column.sortable && column.key != ""
    requires FindColumn(columns, column.key) == Some(column)
    ensures SortedData(data, columns, Clicks(Unsorted, column, 1)) == SortBy(data, CellOf(column.dataIndex), Asc)
    ensures SortedData(data, columns, Clicks(Unsorted, column, 2)) == SortBy(data, CellOf(column.dataIndex), Desc)
    ensures SortedData(data, columns, Clicks(Unsorted, column, 3)) == data
  {
    ClicksState(column, 1);
    ClicksState(column, 2);
    ClicksState(column, 3);
  }
}
