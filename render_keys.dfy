/**
 The identity each displayed row is rendered with, and so the key its checkbox
 passes to `handleRowSelection` (src/components/DataTable/DataTable.tsx:268-270, 285).

 As written, `getRowKey(record, index)` there receives the row's position in the
 SORTED view, while the rows reported to `onRowSelect` are found by applying
 `getRowKey` to the positions in `data` (lines 114-115). For a row without the
 key field the two positions, and so the two identities, can differ.
 */
module RenderKeys {
  import opened Wrappers
  import opened Cells
  import opened SortControl
  import opened Comparator
  import opened StableSort
  import opened SortedView
  import opened Selection

  /** The rendered identities as written: each displayed row keyed by its display position. */
  function RenderedKeysAsWritten(data: seq<Row>, columns: seq<Column>, st: SortState, spec: RowKeySpec): (r: seq<Key>)
    ensures |r| == |data|
    ensures forall i :: 0 <= i < |r| ==> r[i] == RowKey(spec, SortedData(data, columns, st)[i], i)
  {
    var view := SortedData(data, columns, st);
    seq(|view|, i requires 0 <= i < |view| => RowKey(spec, view[i], i))
  }

  /** A row together with its position in `data`. */
  datatype Entry = Entry(row: Row, pos: nat)

  function Entries(data: seq<Row>): (r: seq<Entry>)
    ensures |r| == |data|
    ensures forall i :: 0 <= i < |r| ==> r[i] == Entry(data[i], i)
  {
    seq(|data|, i requires 0 <= i < |data| => Entry(data[i], i))
  }

  function EntryCell(field: string): Entry -> Value
  {
    (e: Entry) => Cell(e.row, field)
  }

  function EntryRow(): Entry -> Row
  {
    (e: Entry) => e.row
  }

  /** The sorted view, each row carrying its position in `data`. */
  function SortedEntries(data: seq<Row>, columns: seq<Column>, st: SortState): (r: seq<Entry>)
    ensures multiset(r) == multiset(Entries(data))
  {
    match SortColumn(columns, st)
    case None => Entries(data)
    case Some(column) => SortBy(Entries(data), EntryCell(column.dataIndex), st.order.value)
  }

  /** Dropping the positions gives back exactly the displayed view. */
  lemma {:induction false} SortedEntriesRows(data: seq<Row>, columns: seq<Column>, st: SortState)
    ensures MapSeq(SortedEntries(data, columns, st), EntryRow()) == SortedData(data, columns, st)
  {
    var es := Entries(data);
    assert MapSeq(es, EntryRow()) == data;
    match SortColumn(columns, st)
    case None =>
    case Some(column) =>
      SortByMap(es, EntryRow(), EntryCell(column.dataIndex), CellOf(column.dataIndex), st.order.value);
  }

  /** Every carried position is the row's own position in `data`. */
  lemma SortedEntriesPositions(data: seq<Row>, columns: seq<Column>, st: SortState, i: nat)
    requires i < |SortedEntries(data, columns, st)|
    ensures SortedEntries(data, columns, st)[i].pos < |data|
    ensures data[SortedEntries(data, columns, st)[i].pos] == SortedEntries(data, columns, st)[i].row
  {
    var es := SortedEntries(data, columns, st);
    assert es[i] in multiset(es);
    assert es[i] in multiset(Entries(data));
    assert es[i] in Entries(data);
  }

  /** The intended rendered identities: each displayed row keyed by its position in `data`. */
  function RenderedKeys(data: seq<Row>, columns: seq<Column>, st: SortState, spec: RowKeySpec): (r: seq<Key>)
    ensures |r| == |data|
  {
    var es := SortedEntries(data, columns, st);
    seq(|es|, i requires 0 <= i < |es| => RowKey(spec, es[i].row, es[i].pos))
  }

  /** With the intended identities, selecting the row displayed at `i` reports that
      row: its key is the key that the projection over `data` gives the same row. */
  lemma RenderedKeySelectsItsRow(data: seq<Row>, columns: seq<Column>, st: SortState, spec: RowKeySpec, i: nat)
    requires i < |data|
    ensures exists j :: 0 <= j < |data| && data[j] == SortedData(data, columns, st)[i]
                        && RowKey(spec, data[j], j) == RenderedKeys(data, columns, st, spec)[i]
    ensures SortedData(data, columns, st)[i] in SelectedData(data, spec, {RenderedKeys(data, columns, st, spec)[i]})
  {
    var es := SortedEntries(data, columns, st);
    SortedEntriesRows(data, columns, st);
    SortedEntriesPositions(data, columns, st, i);
    var view := SortedData(data, columns, st);
    var j := es[i].pos;
    assert view[i] == es[i].row;
    assert data[j] == view[i];
    var k := RenderedKeys(data, columns, st, spec)[i];
    assert RowKey(spec, data[j], j) == k;
    SelectedDataMembers(data, spec, {k}, view[i]);
  }

  /** Where the identities come from the row itself, not its position, the two
      renderings agree. */
  lemma {:induction false} RenderedKeysAgreeWithoutFallback(data: seq<Row>, columns: seq<Column>, st: SortState, spec: RowKeySpec)
    requires forall j :: 0 <= j < |data| ==> !UsesIndex(spec, data[j])
    ensures RenderedKeys(data, columns, st, spec) == RenderedKeysAsWritten(data, columns, st, spec)
  {
    var es := SortedEntries(data, columns, st);
    var view := SortedData(data, columns, st);
    SortedEntriesRows(data, columns, st);
    forall i | 0 <= i < |data|
      ensures RenderedKeys(data, columns, st, spec)[i] == RenderedKeysAsWritten(data, columns, st, spec)[i]
    {
      SortedEntriesPositions(data, columns, st, i);
      assert view[i] == es[i].row;
      assert !UsesIndex(spec, data[es[i].pos]);
    }
  }

  /** As written, the key of the row displayed at `i` selects that row whenever no
      row of `data` falls back to its position. */
  lemma AsWrittenKeySelectsItsRow(data: seq<Row>, columns: seq<Column>, st: SortState, spec: RowKeySpec, i: nat)
    requires i < |data|
    ensures (forall j :: 0 <= j < |data| ==> !UsesIndex(spec, data[j])) ==>
            SortedData(data, columns, st)[i] in SelectedData(data, spec, {RenderedKeysAsWritten(data, columns, st, spec)[i]})
  {
    if forall j :: 0 <= j < |data| ==> !UsesIndex(spec, data[j]) {
      RenderedKeysAgreeWithoutFallback(data, columns, st, spec);
      RenderedKeySelectsItsRow(data, columns, st, spec, i);
    }
  }

  const Bob: Row := map["name" := Str("Bob")]
  const Amy: Row := map["name" := Str("Amy")]
  const NameColumn := Column("name", "Name", "name", true)

  const NameAsc := SortState(Some("name"), Some(Asc))

  lemma SortBobAmy()
    ensures SortBy([Bob, Amy], CellOf("name"), Asc) == [Amy, Bob]
  {
    var key := CellOf("name");
    assert Compare(key(Bob), key(Amy), Asc) == 1 by {
      assert key(Bob) == Str("Bob") && key(Amy) == Str("Amy");
      assert LexCompare("Bob", "Amy") == 1;
    }
    assert [Bob, Amy][1..] == [Amy];
    assert SortBy([Amy], key, Asc) == [Amy] by {
      assert [Amy][1..] == [];
    }
    assert SortBy([Bob, Amy], key, Asc) == Insert(Bob, [Amy], key, Asc);
    assert Insert(Bob, [Amy], key, Asc) == [Amy] + Insert(Bob, [], key, Asc);
    assert Insert(Bob, [], key, Asc) == [Bob];
    assert [Amy] + [Bob] == [Amy, Bob];
  }

  lemma NameAscSortsAmyFirst()
    ensures Clicks(Unsorted, NameColumn, 1) == NameAsc
    ensures SortColumn([NameColumn], NameAsc) == Some(NameColumn)
    ensures SortedData([Bob, Amy], [NameColumn], NameAsc) == [Amy, Bob]
  {
    assert SortColumn([NameColumn], NameAsc) == Some(NameColumn) by {
      assert FindColumn([NameColumn], "name") == Some(NameColumn);
    }
    SortBobAmy();
  }

  lemma BobAmyEntries()
    ensures Entries([Bob, Amy]) == [Entry(Bob, 0), Entry(Amy, 1)]
  {
    var es := Entries([Bob, Amy]);
    assert |es| == 2 && es[0] == Entry(Bob, 0) && es[1] == Entry(Amy, 1);
  }

  lemma SortBobAmyEntries()
    ensures SortBy([Entry(Bob, 0), Entry(Amy, 1)], EntryCell("name"), Asc) == [Entry(Amy, 1), Entry(Bob, 0)]
  {
    var b, a := Entry(Bob, 0), Entry(Amy, 1);
    var key := EntryCell("name");
    assert [b, a][1..] == [a];
    assert key(b) == Str("Bob") && key(a) == Str("Amy");
    assert Compare(key(b), key(a), Asc) == 1 by {
      assert LexCompare("Bob", "Amy") == 1;
    }
    assert SortBy([a], key, Asc) == [a] by {
      assert [a][1..] == [];
    }
    assert SortBy([b, a], key, Asc) == Insert(b, [a], key, Asc);
    assert Insert(b, [a], key, Asc) == [a] + Insert(b, [], key, Asc);
    assert Insert(b, [], key, Asc) == [b];
    assert [a] + [b] == [a, b];
  }

  lemma NameAscEntries()
    ensures SortedEntries([Bob, Amy], [NameColumn], NameAsc) == [Entry(Amy, 1), Entry(Bob, 0)]
  {
    assert SortColumn([NameColumn], NameAsc) == Some(NameColumn) by {
      assert FindColumn([NameColumn], "name") == Some(NameColumn);
    }
    BobAmyEntries();
    SortBobAmyEntries();
  }

  lemma SelectingKeyReports(k: nat)
    requires k < 2
    ensures SelectedData([Bob, Amy], DefaultRowKey, UpdateSelection({}, Num(k), true)) == [[Bob, Amy][k]]
  {
    assert UpdateSelection({}, Num(k), true) == {Num(k)};
    assert RowKey(DefaultRowKey, Bob, 0) == Num(0);
    assert RowKey(DefaultRowKey, Amy, 1) == Num(1);
    assert SelectedIndices([Bob, Amy], DefaultRowKey, {Num(k)}, 2) == [];
    assert SelectedIndices([Bob, Amy], DefaultRowKey, {Num(k)}, 1) == if k == 1 then [1] else [];
    assert SelectedIndices([Bob, Amy], DefaultRowKey, {Num(k)}, 0) == [k];
  }

  /** Two rows without an `id`, sorted by name: the first row displayed is Amy,
      but as written its checkbox carries key 0, which is Bob's identity in
      `data`, so checking Amy reports `[Bob]`. With the intended identities the
      same checkbox carries key 1 and reports `[Amy]`. */
  lemma {:induction false} FallbackKeyReportsWrongRow()
    ensures SortedData([Bob, Amy], [NameColumn], Clicks(Unsorted, NameColumn, 1)) == [Amy, Bob]
    ensures RenderedKeysAsWritten([Bob, Amy], [NameColumn], Clicks(Unsorted, NameColumn, 1), DefaultRowKey)[0] == Num(0)
    ensures SelectedData([Bob, Amy], DefaultRowKey, UpdateSelection({}, Num(0), true)) == [Bob]
    ensures RenderedKeys([Bob, Amy], [NameColumn], Clicks(Unsorted, NameColumn, 1), DefaultRowKey)[0] == Num(1)
    ensures SelectedData([Bob, Amy], DefaultRowKey, UpdateSelection({}, Num(1), true)) == [Amy]
  {
    NameAscSortsAmyFirst();
    NameAscEntries();
    assert RowKey(DefaultRowKey, Amy, 0) == Num(0);
    assert RowKey(DefaultRowKey, Amy, 1) == Num(1);
    SelectingKeyReports(0);
    SelectingKeyReports(1);
  }
}
