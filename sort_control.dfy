/**
 The sort controller of the data table: the `{column, order}` sort state and the
 transition a click on a column header makes (src/components/DataTable/DataTable.tsx:28-33,
 49, 58-68).
 */
module SortControl {
  import opened Wrappers

  /** A non-null `SortOrder`. */
  datatype Direction = Asc | Desc

  /** `SortState`: both fields are nullable, exactly as in the source. */
  datatype SortState = SortState(column: Option<string>, order: Option<Direction>)

  /** The subset of a column definition that sorting reads; `sortable` absent is false. */
  datatype Column = Column(key: string, title: string, dataIndex: string, sortable: bool)

  /** The state the table starts in. */
  const Unsorted := SortState(None, None)

  /** The state invariant: a column is named exactly when an order is. */
  predicate WellFormed(st: SortState)
  {
    st.column.None? <==> st.order.None?
  }

  /** The order after a click on the current column: asc, then desc, then none. */
  function NextOrder(order: Option<Direction>): (r: Option<Direction>)
    ensures order == Some(Asc) ==> r == Some(Desc)
    ensures order == Some(Desc) ==> r == None
    ensures order == None ==> r == Some(Asc)
  {
    match order
    case Some(Asc) => Some(Desc)
    case Some(Desc) => None
    case None => Some(Asc)
  }

  /** Three steps of the order return to where they started. */
  lemma NextOrderPeriodThree(order: Option<Direction>)
    ensures NextOrder(NextOrder(NextOrder(order))) == order
    ensures NextOrder(order) != order
  {
  }

  /** The updater `handleSort` passes to `setSortState` for a click on the column
      keyed `key`: a new column starts ascending, the current one moves on. */
  function SortUpdater(prev: SortState, key: string): (r: SortState)
    ensures WellFormed(r)
    ensures r.column.None? || r.column == Some(key)
    ensures prev.column != Some(key) ==> r == SortState(Some(key), Some(Asc))
    ensures prev.column == Some(key) ==> r.order == NextOrder(prev.order)
  {
    if prev.column == Some(key) then
      var newOrder := NextOrder(prev.order);
      SortState(if newOrder.Some? then Some(key) else None, newOrder)
    else SortState(Some(key), Some(Asc))
  }

  /** `handleSort(column)` applied to the state `prev`: inert unless the column is sortable. */
  function NextSortState(prev: SortState, column: Column): (r: SortState)
    ensures !column.sortable ==> r == prev
    ensures column.sortable ==> WellFormed(r)
  {
    if !column.sortable then prev else SortUpdater(prev, column.key)
  }

  /** Every transition keeps the invariant, and the initial state has it. */
  lemma NextSortStatePreservesWellFormed(prev: SortState, column: Column)
    requires WellFormed(prev)
    ensures WellFormed(Unsorted)
    ensures WellFormed(NextSortState(prev, column))
  {
  }

  /** On the current column, ascending becomes descending and descending becomes unsorted. */
  lemma {:induction false} CurrentColumnCycle(column: Column)
    requires column.sortable
    ensures NextSortState(SortState(Some(column.key), Some(Asc)), column) == SortState(Some(column.key), Some(Desc))
    ensures NextSortState(SortState(Some(column.key), Some(Desc)), column) == Unsorted
  {
  }

  /** Three clicks on one sortable column, starting from any state that does not
      sort by it, pass through asc and desc and end unsorted. */
  lemma {:induction false} ThreeClicksUnsort(prev: SortState, column: Column)
    requires column.sortable
    requires prev.column != Some(column.key)
    ensures NextSortState(prev, column) == SortState(Some(column.key), Some(Asc))
    ensures NextSortState(NextSortState(prev, column), column) == SortState(Some(column.key), Some(Desc))
    ensures NextSortState(NextSortState(NextSortState(prev, column), column), column) == Unsorted
  {
  }

  /** Sort state is only ever chosen by a sortable column: a click on a column that
      is not sortable leaves every state as it was, however often it is repeated. */
  lemma {:induction false} NonSortableIsInert(prev: SortState, column: Column, clicks: nat)
    requires !column.sortable
    ensures Clicks(prev, column, clicks) == prev
  {
    if clicks > 0 {
      NonSortableIsInert(prev, column, clicks - 1);
    }
  }

  /** The state after `n` clicks on one column. */
  function Clicks(st: SortState, column: Column, n: nat): SortState
  {
    if n == 0 then st else NextSortState(Clicks(st, column, n - 1), column)
  }

  /** The cycle has length three: from unsorted, clicks on one sortable column
      repeat every three clicks. */
  lemma {:induction false} ClicksPeriodThree(column: Column, n: nat)
    requires column.sortable
    ensures Clicks(Unsorted, column, n + 3) == Clicks(Unsorted, column, n)
    ensures Clicks(Unsorted, column, n) == Unsorted <==> n % 3 == 0
  {
    ClicksState(column, n);
    ClicksState(column, n + 3);
  }

  /** Where the cycle stands after `n` clicks from unsorted. */
  lemma {:induction false} ClicksState(column: Column, n: nat)
    requires column.sortable
    ensures n % 3 == 0 ==> Clicks(Unsorted, column, n) == Unsorted
    ensures n % 3 == 1 ==> Clicks(Unsorted, column, n) == SortState(Some(column.key), Some(Asc))
    ensures n % 3 == 2 ==> Clicks(Unsorted, column, n) == SortState(Some(column.key), Some(Desc))
  {
    if n > 0 {
      ClicksState(column, n - 1);
    }
  }
}
