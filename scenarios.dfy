/**
 The component's own test fixtures (src/components/DataTable/DataTable.test.tsx:14-24)
 and the interactions its tests perform, played against the model.
 */
module Scenarios {
  import opened Wrappers
  import opened Cells
  import opened SortControl
  import opened Comparator
  import opened StableSort
  import opened SortedView
  import opened Selection
  import opened Table
  import RenderKeys

  const John: Row := map["id" := Num(1), "name" := Str("John Doe"), "age" := Num(30), "email" := Str("john@example.com")]
  const Jane: Row := map["id" := Num(2), "name" := Str("Jane Smith"), "age" := Num(25), "email" := Str("jane@example.com")]
  const BobJ: Row := map["id" := Num(3), "name" := Str("Bob Johnson"), "age" := Num(35), "email" := Str("bob@example.com")]

  const TestData: seq<Row> := [John, Jane, BobJ]

  const NameCol := Column("name", "Name", "name", true)
  const AgeCol := Column("age", "Age", "age", true)
  const EmailCol := Column("email", "Email", "email", false)

  const TestColumns: seq<Column> := [NameCol, AgeCol, EmailCol]

  /** The fixture rows carry distinct `id`s 1, 2 and 3. */
  lemma TestDataKeys()
    ensures forall j :: 0 <= j < 3 ==> RowKey(DefaultRowKey, TestData[j], j) == Num(j + 1)
    ensures DistinctKeys(TestData, DefaultRowKey)
  {
    assert RowKey(DefaultRowKey, John, 0) == Num(1);
    assert RowKey(DefaultRowKey, Jane, 1) == Num(2);
    assert RowKey(DefaultRowKey, BobJ, 2) == Num(3);
  }

  /** The three fixture names compare as the code points of their first differing letters. */
  lemma NameComparisons()
    ensures Compare(Cell(Jane, "name"), Cell(BobJ, "name"), Asc) == 1
    ensures Compare(Cell(John, "name"), Cell(BobJ, "name"), Asc) == 1
    ensures Compare(Cell(John, "name"), Cell(Jane, "name"), Asc) == 1
  {
    assert Cell(John, "name") == Str("John Doe") && Cell(Jane, "name") == Str("Jane Smith") && Cell(BobJ, "name") == Str("Bob Johnson");
    assert LexCompare("Jane Smith", "Bob Johnson") == 1;
    assert LexCompare("John Doe", "Bob Johnson") == 1;
    assert LexCompare("ohn Doe", "ane Smith") == 1;
    assert LexCompare("John Doe", "Jane Smith") == LexCompare("ohn Doe", "ane Smith");
  }

  /** The last two fixture rows, sorted by name: Bob Johnson before Jane Smith. */
  lemma SortLastTwoByName()
    ensures SortBy([Jane, BobJ], CellOf("name"), Asc) == [BobJ, Jane]
  {
    var key := CellOf("name");
    NameComparisons();
    assert [Jane, BobJ][1..] == [BobJ];
    assert SortBy([BobJ], key, Asc) == [BobJ] by {
      assert [BobJ][1..] == [];
    }
    assert Insert(Jane, [], key, Asc) == [Jane];
    assert Insert(Jane, [BobJ], key, Asc) == [BobJ] + [Jane];
  }

  /** John Doe goes after both Bob Johnson and Jane Smith. */
  lemma InsertJohnByName()
    ensures Insert(John, [BobJ, Jane], CellOf("name"), Asc) == [BobJ, Jane, John]
  {
    var key := CellOf("name");
    NameComparisons();
    assert Insert(John, [], key, Asc) == [John];
    assert Insert(John, [Jane], key, Asc) == [Jane] + [John];
    assert [BobJ, Jane][1..] == [Jane];
    assert Insert(John, [BobJ, Jane], key, Asc) == [BobJ] + [Jane, John];
  }

  lemma SortFixturesByName()
    ensures SortBy(TestData, CellOf("name"), Asc) == [BobJ, Jane, John]
  {
    assert TestData[1..] == [Jane, BobJ];
    SortLastTwoByName();
    InsertJohnByName();
  }

  /** One click on "Name" sorts ascending by name: Bob Johnson, Jane Smith, John Doe. */
  lemma NameClickSortsByName()
    ensures NextSortState(Unsorted, NameCol) == SortState(Some("name"), Some(Asc))
    ensures SortedData(TestData, TestColumns, NextSortState(Unsorted, NameCol)) == [BobJ, Jane, John]
  {
    var st := NextSortState(Unsorted, NameCol);
    assert st == SortState(Some("name"), Some(Asc));
    assert SortColumn(TestColumns, st) == Some(NameCol) by {
      assert FindColumn(TestColumns, "name") == Some(NameCol);
    }
    SortFixturesByName();
  }

  /** Checking the first row's checkbox reports exactly the first fixture row. */
  lemma FirstRowSelectionReportsIt()
    ensures RowKey(DefaultRowKey, SortedData(TestData, TestColumns, Unsorted)[0], 0) == Num(1)
    ensures SelectedData(TestData, DefaultRowKey, UpdateSelection({}, Num(1), true)) == [John]
  {
    TestDataKeys();
    assert UpdateSelection({}, Num(1), true) == {Num(1)};
    assert SelectedIndices(TestData, DefaultRowKey, {Num(1)}, 3) == [];
    assert SelectedIndices(TestData, DefaultRowKey, {Num(1)}, 2) == [];
    assert SelectedIndices(TestData, DefaultRowKey, {Num(1)}, 1) == [];
    assert SelectedIndices(TestData, DefaultRowKey, {Num(1)}, 0) == [0];
  }

  /** The row-selection test: mount with `onRowSelect`, check the checkbox of the
      first displayed row. */
  method RowCheckboxClick() returns (calls: seq<seq<Row>>, allSelected: bool, partial: bool)
    ensures calls == [[John]]
    ensures !allSelected && partial
  {
    var table := new DataTable(TestData, TestColumns, None, true);
    FirstRowSelectionReportsIt();
    var key := table.CheckboxKey(0);
    table.HandleRowSelection(key, true);
    calls := table.notifications;
    allSelected := table.IsAllSelected();
    partial := table.IsPartiallySelected();
  }

  /** The index fallback through the class: two rows without an `id`, one click on
      "Name", then the checkbox of the first displayed row (Amy). The call
      reports Bob, the row at position 0 of `data`. */
  method FallbackCheckboxClick() returns (firstRow: Row, calls: seq<seq<Row>>)
    ensures firstRow == RenderKeys.Amy
    ensures calls == [[RenderKeys.Bob]]
  {
    var table := new DataTable([RenderKeys.Bob, RenderKeys.Amy], [RenderKeys.NameColumn], None, true);
    table.HandleSort(RenderKeys.NameColumn);
    RenderKeys.NameAscSortsAmyFirst();
    RenderKeys.SelectingKeyReports(0);
    firstRow := table.View()[0];
    assert UsesIndex(DefaultRowKey, RenderKeys.Amy);
    var key := table.CheckboxKey(0);
    table.HandleRowSelection(key, true);
    calls := table.notifications;
  }

  /** The select-all test: the header checkbox reports every fixture row, and the
      header then shows all selected. */
  method SelectAllClick() returns (calls: seq<seq<Row>>, allSelected: bool)
    ensures calls == [TestData]
    ensures allSelected
  {
    var table := new DataTable(TestData, TestColumns, None, true);
    table.HandleSelectAll(true);
    calls := table.notifications;
    TestDataKeys();
    HeaderAfterSelectAll(TestData, DefaultRowKey);
    allSelected := table.IsAllSelected();
  }

  /** The sorting test: a click on "Name" puts Bob Johnson in the first data row. */
  method NameHeaderClick() returns (firstRow: Row)
    ensures firstRow == BobJ
  {
    var table := new DataTable(TestData, TestColumns, None, false);
    table.HandleSort(NameCol);
    NameClickSortsByName();
    assert table.sortState == NextSortState(Unsorted, NameCol);
    assert table.View() == [BobJ, Jane, John];
    firstRow := table.View()[0];
  }
}
