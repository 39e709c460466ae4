/**
 The selection tracker of the data table: row identities, the selected-key set,
 the rows reported to `onRowSelect`, and the header checkbox state
 (src/components/DataTable/DataTable.tsx:20, 41, 48, 51-56, 102-137).
 */
module Selection {
  import opened Cells

  /** The `rowKey` prop: a field name, or a function from a record to its identity. */
  datatype RowKeySpec = KeyField(name: string) | KeyFunction(derive: Row -> Key)

  /** The `rowKey` used when the prop is absent. */
  const DefaultRowKey := KeyField("id")

  /** Whether the identity of `record` falls back to its position. */
  predicate UsesIndex(spec: RowKeySpec, record: Row)
  {
    spec.KeyField? && Cell(record, spec.name).Null?
  }

  /** `getRowKey(record, index)`: the function's result, or `record[name] ?? index`. */
  function RowKey(spec: RowKeySpec, record: Row, index: nat): (k: Key)
    ensures spec.KeyFunction? ==> k == spec.derive(record)
    ensures spec.KeyField? && !UsesIndex(spec, record) ==> k == Cell(record, spec.name)
    ensures UsesIndex(spec, record) ==> k == Num(index)
  {
    match spec
    case KeyFunction(derive) => derive(record)
    case KeyField(name) => if Cell(record, name).Null? then Num(index) else Cell(record, name)
  }

  /** The position only matters when the row lacks the key field: a row's
      identity is the same at every index exactly when it does not fall back. */
  lemma RowKeyPositionIndependent(spec: RowKeySpec, record: Row)
    ensures (forall i: nat, j: nat :: RowKey(spec, record, i) == RowKey(spec, record, j)) <==> !UsesIndex(spec, record)
  {
    if UsesIndex(spec, record) {
      assert RowKey(spec, record, 0) != RowKey(spec, record, 1);
    }
  }

  /** The set `handleRowSelection(key, selected)` installs: a copy of `sel` with
      `key` added or deleted. */
  function UpdateSelection(sel: set<Key>, key: Key, selected: bool): (r: set<Key>)
    ensures key in r <==> selected
    ensures forall k :: k != key ==> (k in r <==> k in sel)
    ensures selected ==> sel <= r && |r| <= |sel| + 1
    ensures !selected ==> r <= sel
  {
    if selected then sel + {key} else sel - {key}
  }

  /** Repeating the same selection call changes nothing more. */
  lemma UpdateSelectionIdempotent(sel: set<Key>, key: Key, selected: bool)
    ensures UpdateSelection(UpdateSelection(sel, key, selected), key, selected) == UpdateSelection(sel, key, selected)
  {
  }

  /** The identities of the rows of `data` from position `i` on. */
  function KeysFrom(data: seq<Row>, spec: RowKeySpec, i: nat): (r: set<Key>)
    requires i <= |data|
    ensures forall j :: i <= j < |data| ==> RowKey(spec, data[j], j) in r
    decreases |data| - i
  {
    if i == |data| then {} else {RowKey(spec, data[i], i)} + KeysFrom(data, spec, i + 1)
  }

  /** Every identity in `KeysFrom(data, spec, i)` belongs to a row from position `i` on. */
  lemma {:induction false} KeysFromMember(data: seq<Row>, spec: RowKeySpec, i: nat, k: Key)
    requires i <= |data|
    requires k in KeysFrom(data, spec, i)
    ensures exists j :: i <= j < |data| && RowKey(spec, data[j], j) == k
    decreases |data| - i
  {
    if k != RowKey(spec, data[i], i) {
      KeysFromMember(data, spec, i + 1, k);
    }
  }

  /** `new Set(data.map((record, index) => getRowKey(record, index)))`. */
  function AllKeys(data: seq<Row>, spec: RowKeySpec): (r: set<Key>)
    ensures forall j :: 0 <= j < |data| ==> RowKey(spec, data[j], j) in r
    ensures |r| <= |data|
  {
    KeysFromCardinality(data, spec, 0);
    KeysFrom(data, spec, 0)
  }

  /** No two rows of `data` from position `i` on share an identity. */
  predicate DistinctFrom(data: seq<Row>, spec: RowKeySpec, i: nat)
  {
    forall a, b :: i <= a < b < |data| ==> RowKey(spec, data[a], a) != RowKey(spec, data[b], b)
  }

  /** No two rows of `data` share an identity: the caller's obligation. */
  predicate DistinctKeys(data: seq<Row>, spec: RowKeySpec)
  {
    DistinctFrom(data, spec, 0)
  }

  /** There are at most as many identities as rows, and exactly as many when
      the identities are distinct. */
  lemma {:induction false} KeysFromCardinality(data: seq<Row>, spec: RowKeySpec, i: nat)
    requires i <= |data|
    ensures |KeysFrom(data, spec, i)| <= |data| - i
    ensures |KeysFrom(data, spec, i)| == |data| - i <==> DistinctFrom(data, spec, i)
    decreases |data| - i
  {
    if i < |data| {
      KeysFromCardinality(data, spec, i + 1);
      DistinctFromStep(data, spec, i);
      KeysFromStep(data, spec, i);
    }
  }

  lemma KeysFromStep(data: seq<Row>, spec: RowKeySpec, i: nat)
    requires i < |data|
    ensures |KeysFrom(data, spec, i)| ==
            |KeysFrom(data, spec, i + 1)| + (if RowKey(spec, data[i], i) in KeysFrom(data, spec, i + 1) then 0 else 1)
  {
    var k := RowKey(spec, data[i], i);
    var rest := KeysFrom(data, spec, i + 1);
    assert KeysFrom(data, spec, i) == {k} + rest;
    if k in rest {
      assert {k} + rest == rest;
    } else {
      assert |{k} + rest| == |rest| + 1;
    }
  }

  /** Distinctness from `i` on is distinctness from `i + 1` on plus the identity
      at `i` not occurring later. */
  lemma DistinctFromStep(data: seq<Row>, spec: RowKeySpec, i: nat)
    requires i < |data|
    ensures DistinctFrom(data, spec, i) <==> DistinctFrom(data, spec, i + 1) && RowKey(spec, data[i], i) !in KeysFrom(data, spec, i + 1)
  {
    var k := RowKey(spec, data[i], i);
    if k in KeysFrom(data, spec, i + 1) {
      KeysFromMember(data, spec, i + 1, k);
      var b :| i + 1 <= b < |data| && RowKey(spec, data[b], b) == k;
      assert !DistinctFrom(data, spec, i);
    }
  }

  /** The positions of `data`, from `i` on, whose rows have an identity in `sel`, in increasing order. */
  function SelectedIndices(data: seq<Row>, spec: RowKeySpec, sel: set<Key>, i: nat): (r: seq<nat>)
    requires i <= |data|
    ensures forall a :: 0 <= a < |r| ==> i <= r[a] < |data| && RowKey(spec, data[r[a]], r[a]) in sel
    ensures forall a, b :: 0 <= a < b < |r| ==> r[a] < r[b]
    ensures forall j :: i <= j < |data| && RowKey(spec, data[j], j) in sel ==> j in r
    decreases |data| - i
  {
    if i == |data| then []
    else if RowKey(spec, data[i], i) in sel then [i] + SelectedIndices(data, spec, sel, i + 1)
    else SelectedIndices(data, spec, sel, i + 1)
  }

  /** `data.filter((record, index) => sel.has(getRowKey(record, index)))`: the rows
      at the selected positions, in the order of `data`. */
  function SelectedData(data: seq<Row>, spec: RowKeySpec, sel: set<Key>): (r: seq<Row>)
    ensures |r| <= |data|
    ensures forall a :: 0 <= a < |r| ==> r[a] in data
  {
    var idx := SelectedIndices(data, spec, sel, 0);
    assert |idx| <= |data| by {
      IndicesLength(data, spec, sel, 0);
    }
    seq(|idx|, a requires 0 <= a < |idx| => data[idx[a]])
  }

  lemma {:induction false} IndicesLength(data: seq<Row>, spec: RowKeySpec, sel: set<Key>, i: nat)
    requires i <= |data|
    ensures |SelectedIndices(data, spec, sel, i)| <= |data| - i
    decreases |data| - i
  {
    if i < |data| {
      IndicesLength(data, spec, sel, i + 1);
    }
  }

  /** The positions `i`, `i + 1`, ..., `n - 1`. */
  function Run(i: nat, n: nat): (r: seq<nat>)
    ensures |r| == if i <= n then n - i else 0
    decreases n - i
  {
    if i >= n then [] else [i] + Run(i + 1, n)
  }

  lemma {:induction false} RunAt(i: nat, n: nat, a: nat)
    requires i + a < n
    ensures Run(i, n)[a] == i + a
    decreases a
  {
    if a > 0 {
      RunAt(i + 1, n, a - 1);
      assert Run(i, n)[a] == Run(i + 1, n)[a - 1];
    }
  }

  /** When every row from `i` on is selected, the selected positions are all of them. */
  lemma {:induction false} IndicesOfFullSelection(data: seq<Row>, spec: RowKeySpec, sel: set<Key>, i: nat)
    requires i <= |data|
    requires forall j :: i <= j < |data| ==> RowKey(spec, data[j], j) in sel
    ensures SelectedIndices(data, spec, sel, i) == Run(i, |data|)
    decreases |data| - i
  {
    if i < |data| {
      IndicesOfFullSelection(data, spec, sel, i + 1);
      assert RowKey(spec, data[i], i) in sel;
    }
  }

  /** A set that holds the identity of every row reports all of `data`, in order. */
  lemma SelectedDataOfFullSelection(data: seq<Row>, spec: RowKeySpec, sel: set<Key>)
    requires forall j :: 0 <= j < |data| ==> RowKey(spec, data[j], j) in sel
    ensures SelectedData(data, spec, sel) == data
  {
    IndicesOfFullSelection(data, spec, sel, 0);
    forall a | 0 <= a < |data|
      ensures SelectedIndices(data, spec, sel, 0)[a] == a
    {
      RunAt(0, |data|, a);
    }
  }

  /** A set that holds the identity of no row reports nothing. */
  lemma SelectedDataOfEmptySelection(data: seq<Row>, spec: RowKeySpec, sel: set<Key>)
    requires forall j :: 0 <= j < |data| ==> RowKey(spec, data[j], j) !in sel
    ensures SelectedData(data, spec, sel) == []
  {
    IndicesOfEmptySelection(data, spec, sel, 0);
  }

  lemma {:induction false} IndicesOfEmptySelection(data: seq<Row>, spec: RowKeySpec, sel: set<Key>, i: nat)
    requires i <= |data|
    requires forall j :: i <= j < |data| ==> RowKey(spec, data[j], j) !in sel
    ensures SelectedIndices(data, spec, sel, i) == []
    decreases |data| - i
  {
    if i < |data| {
      IndicesOfEmptySelection(data, spec, sel, i + 1);
    }
  }

  /** The identities `handleSelectAll(true)` installs report `data` unchanged. */
  lemma SelectedDataOfAllKeys(data: seq<Row>, spec: RowKeySpec)
    ensures SelectedData(data, spec, AllKeys(data, spec)) == data
  {
    SelectedDataOfFullSelection(data, spec, AllKeys(data, spec));
  }

  /** What `handleSelectAll(selected)` reports is the filtered report of the set it installs. */
  lemma SelectAllReport(data: seq<Row>, spec: RowKeySpec, selected: bool)
    ensures SelectedData(data, spec, if selected then AllKeys(data, spec) else {}) == if selected then data else []
  {
    if selected {
      SelectedDataOfAllKeys(data, spec);
    } else {
      SelectedDataOfEmptySelection(data, spec, {});
    }
  }

  /** A row is reported exactly when some position of `data` holding it has its
      identity in the set. */
  lemma SelectedDataMembers(data: seq<Row>, spec: RowKeySpec, sel: set<Key>, row: Row)
    ensures row in SelectedData(data, spec, sel) <==>
            exists j :: 0 <= j < |data| && data[j] == row && RowKey(spec, data[j], j) in sel
  {
    var idx := SelectedIndices(data, spec, sel, 0);
    var r := SelectedData(data, spec, sel);
    if row in r {
      var a :| 0 <= a < |r| && r[a] == row;
      assert data[idx[a]] == row && RowKey(spec, data[idx[a]], idx[a]) in sel;
    }
    if exists j :: 0 <= j < |data| && data[j] == row && RowKey(spec, data[j], j) in sel {
      var j :| 0 <= j < |data| && data[j] == row && RowKey(spec, data[j], j) in sel;
      var a :| 0 <= a < |idx| && idx[a] == j;
      assert r[a] == row;
    }
  }

  /** `isAllSelected`: the set is not empty and has as many keys as there are rows. */
  function IsAllSelected(sel: set<Key>, rowCount: nat): (r: bool)
    ensures r ==> sel != {}
  {
    |sel| > 0 && |sel| == rowCount
  }

  /** `isPartiallySelected`: the set is not empty and has fewer keys than there are rows. */
  function IsPartiallySelected(sel: set<Key>, rowCount: nat): (r: bool)
    ensures r ==> sel != {} && !IsAllSelected(sel, rowCount)
  {
    |sel| > 0 && |sel| < rowCount
  }

  /** The header checkbox after `handleSelectAll(true)`: checked exactly when there
      are rows and their identities are distinct, indeterminate exactly when
      there are rows and two of them share an identity. */
  lemma {:induction false} HeaderAfterSelectAll(data: seq<Row>, spec: RowKeySpec)
    ensures IsAllSelected(AllKeys(data, spec), |data|) <==> |data| > 0 && DistinctKeys(data, spec)
    ensures IsPartiallySelected(AllKeys(data, spec), |data|) <==> |data| > 0 && !DistinctKeys(data, spec)
  {
    KeysFromCardinality(data, spec, 0);
    if |data| > 0 {
      assert RowKey(spec, data[0], 0) in AllKeys(data, spec);
    }
  }

  /** With distinct identities and a set drawn from them, the header reads
      "all selected" exactly when every row is selected. */
  lemma {:induction false} AllSelectedMeansEveryRow(data: seq<Row>, spec: RowKeySpec, sel: set<Key>)
    requires DistinctKeys(data, spec)
    requires sel <= AllKeys(data, spec)
    ensures IsAllSelected(sel, |data|) <==> sel != {} && sel == AllKeys(data, spec)
  {
    var all := AllKeys(data, spec);
    KeysFromCardinality(data, spec, 0);
    if |sel| == |data| {
      assert |all - sel| == |all| - |sel|;
      assert all - sel == {};
    }
  }
}
