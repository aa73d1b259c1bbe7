/**
 * The editable table adapter (`PandasModel`): row and column counts, the
 * text and alignment of a cell, editing a cell with numeric coercion on the
 * id/value/count columns, appending a row and removing a set of rows.
 * Rows are inserted and removed only on the label editor's and the sample
 * types' frames, which are indexed 0..n-1 (a fresh read, and `remove_rows`
 * re-indexes), so positions and labels coincide there. The filtered views
 * of the edit hub and the CSV reports keep their original labels.
 */
module TableModel {
  import opened Options
  import opened Strings
  import opened Seqs
  import opened Sorting
  import opened Numbers
  import opened Tables

  /** A `QModelIndex`: valid when both coordinates are non-negative (the default index is (-1, -1)). */
  datatype ModelIndex = ModelIndex(row: int, column: int) {
    predicate IsValid() {
      row >= 0 && column >= 0
    }
  }

  const NoParent := ModelIndex(-1, -1)

  /** A valid index addresses a cell of the table. */
  predicate Addresses(t: Table, idx: ModelIndex) {
    idx.IsValid() && idx.row < |t.rows| && idx.column < |t.columns|
  }

  datatype Role = DisplayRole | EditRole | TextAlignmentRole | OtherRole(code: int)

  /** Horizontal alignment; both are combined with vertical centring. */
  datatype Alignment = AlignLeft | AlignRight

  datatype DataValue = NoValue | TextValue(text: string) | AlignValue(align: Alignment)

  /** Column names (lower-cased) that are right-aligned and coerced to integers on edit. */
  const NumericColumns: set<string> := {"id", "value", "count"}

  predicate IsNumericColumn(name: string) {
    Lower(name) in NumericColumns
  }

  /** The adapter is flat: only the invalid (top-level) parent has rows. */
  function RowCount(t: Table, parent: ModelIndex): nat
  {
    if parent.IsValid() then 0 else |t.rows|
  }

  function ColumnCount(t: Table, parent: ModelIndex): nat
  {
    if parent.IsValid() then 0 else |t.columns|
  }

  /**
   * With the top-level parent the counts bound exactly the indices that
   * address a cell.
   */
  lemma CountsBoundCells(t: Table, parent: ModelIndex, idx: ModelIndex)
    requires !parent.IsValid()
    ensures Addresses(t, idx) <==>
      idx.IsValid() && idx.row < RowCount(t, parent) && idx.column < ColumnCount(t, parent)
  {
  }

  /** `data(index, role)`. */
  function Data(t: Table, idx: ModelIndex, role: Role): (v: DataValue)
    requires WellFormed(t)
    requires idx.IsValid() ==> Addresses(t, idx)
    ensures !idx.IsValid() ==> v == NoValue
    ensures idx.IsValid() && role in {DisplayRole, EditRole} ==>
      && v.TextValue?
      && (t.rows[idx.row][idx.column].Missing? ==> v.text == "")
      && (!t.rows[idx.row][idx.column].Missing? ==> v.text == StrOf(t.rows[idx.row][idx.column]))
    ensures idx.IsValid() && role == TextAlignmentRole ==>
      v.AlignValue? && (v.align == AlignRight <==> Lower(t.columns[idx.column]) in {"id", "value", "count"})
    ensures idx.IsValid() && (role.OtherRole?) ==> v == NoValue
  {
    if !idx.IsValid() then NoValue
    else
      var value := t.rows[idx.row][idx.column];
      if role == DisplayRole || role == EditRole then TextValue(Display(value))
      else if role == TextAlignmentRole then
        AlignValue(if IsNumericColumn(t.columns[idx.column]) then AlignRight else AlignLeft)
      else NoValue
  }

  /**
   * The column's pandas dtype is float64: it holds a float and otherwise only
   * NaN, as `to_numeric` leaves a number column with a blank. An integer
   * written into such a column with `iat` is stored as a float.
   */
  predicate FloatColumn(t: Table, j: nat)
    requires WellFormed(t) && j < |t.columns|
  {
    && (exists k | 0 <= k < |t.rows| :: t.rows[k][j].Float?)
    && (forall k | 0 <= k < |t.rows| :: t.rows[k][j].Float? || t.rows[k][j].Missing?)
  }

  /**
   * The cell column `j` holds for a value written into it: a float64 column
   * stays float64 under both `iat` and `concat`, so an integer lands there as
   * a float; any other value is kept as it is.
   */
  function Widened(t: Table, j: nat, v: Cell): Cell
    requires WellFormed(t) && j < |t.columns|
  {
    if v.Int? && FloatColumn(t, j) then Float(Decimal(v.i, 0)) else v
  }

  /**
   * The value `setData` stores in column `j`: on a numeric column the integer
   * truncation when the text parses (a float in a float column), the text otherwise.
   */
  function Coerce(t: Table, j: nat, value: string, toInt: string -> Option<int>): Cell
    requires WellFormed(t) && j < |t.columns|
  {
    if IsNumericColumn(t.columns[j]) then
      match toInt(value)
      case Some(n) => Widened(t, j, Int(n))
      case None => Text(value)
    else Text(value)
  }

  /**
   * `setData(index, value, role)`: returns whether the edit was taken and the
   * resulting table. `toInt` stands for `int(float(value))`, `None` when it raises.
   */
  function SetData(t: Table, idx: ModelIndex, value: string, role: Role, toInt: string -> Option<int>): (r: (bool, Table))
    requires WellFormed(t)
    requires idx.IsValid() ==> Addresses(t, idx)
    ensures WellFormed(r.1)
    ensures r.0 <==> role == EditRole && idx.IsValid()
    ensures !r.0 ==> r.1 == t
    ensures r.1.columns == t.columns && |r.1.rows| == |t.rows|
    ensures r.0 ==> forall k, j | 0 <= k < |t.rows| && 0 <= j < |t.columns| ::
      r.1.rows[k][j] == (if k == idx.row && j == idx.column then Coerce(t, j, value, toInt) else t.rows[k][j])
  {
    if role != EditRole || !idx.IsValid() then (false, t)
    else
      var cell := Coerce(t, idx.column, value, toInt);
      var row := t.rows[idx.row][idx.column := cell];
      (true, Table(t.columns, t.rows[idx.row := row]))
  }

  /**
   * Editing a cell and reading it back shows the text typed, or, on a numeric
   * column where it parses, the integer's text, followed by ".0" when the
   * column holds floats.
   */
  lemma EditThenDisplay(t: Table, idx: ModelIndex, value: string, toInt: string -> Option<int>)
    requires WellFormed(t) && Addresses(t, idx)
    ensures var t' := SetData(t, idx, value, EditRole, toInt).1;
      Data(t', idx, DisplayRole) ==
        (if IsNumericColumn(t.columns[idx.column]) && toInt(value).Some?
         then TextValue(IntToString(toInt(value).value) + (if FloatColumn(t, idx.column) then ".0" else ""))
         else TextValue(value))
  {
    if IsNumericColumn(t.columns[idx.column]) && toInt(value).Some? {
      WholeFloatRepr(toInt(value).value);
      assert IntToString(toInt(value).value) + "" == IntToString(toInt(value).value);
    }
  }

  /** "7" typed beside a NaN in a float `Value` column shows as "7.0". */
  lemma EditFloatColumnShowsPoint(toInt: string -> Option<int>)
    requires toInt("7") == Some(7)
    ensures var t := Table(["Value"], [[Float(Decimal(20, 0))], [Missing]]);
      Data(SetData(t, ModelIndex(1, 0), "7", EditRole, toInt).1, ModelIndex(1, 0), DisplayRole) == TextValue("7.0")
  {
    var t := Table(["Value"], [[Float(Decimal(20, 0))], [Missing]]);
    assert t.rows[0][0].Float?;
    assert IsNumericColumn("Value") by {
      assert Lower("Value") == "value";
    }
    EditThenDisplay(t, ModelIndex(1, 0), "7", toInt);
    assert IntToString(7) == "7";
  }

  /**
   * `insert_empty_row(default_row)`: one new last row; without a default every
   * cell is "", with one each column takes the dictionary's value or NaN.
   * `df.loc[len(df)] = row` infers the new row's dtypes and concatenates it,
   * so an integer default in a float64 column is stored as a float.
   */
  function InsertEmptyRow(t: Table, default: Option<map<string, Cell>>): (r: Table)
    requires WellFormed(t)
    ensures WellFormed(r) && r.columns == t.columns
    ensures |r.rows| == |t.rows| + 1 && r.rows[..|t.rows|] == t.rows
    ensures default.None? ==> forall j | 0 <= j < |t.columns| :: r.rows[|t.rows|][j] == Blank
    ensures default.Some? ==> forall j | 0 <= j < |t.columns| ::
      r.rows[|t.rows|][j] == (if t.columns[j] in default.value then Widened(t, j, default.value[t.columns[j]]) else Missing)
  {
    match default
    case None => AppendRow(t, map c | c in Elements(t.columns) :: Blank)
    case Some(m) =>
      WidenedRowCells(t, m);
      AppendRow(t, WidenedRow(t, m))
  }

  /** The default row with each value widened to its column's dtype. */
  function WidenedRow(t: Table, m: map<string, Cell>): map<string, Cell>
    requires WellFormed(t)
  {
    map c | c in m :: if c in t.columns then Widened(t, ColumnIndex(t.columns, c), m[c]) else m[c]
  }

  lemma WidenedRowCells(t: Table, m: map<string, Cell>)
    requires WellFormed(t)
    ensures forall j | 0 <= j < |t.columns| ::
      (t.columns[j] in WidenedRow(t, m) <==> t.columns[j] in m)
      && (t.columns[j] in m ==> WidenedRow(t, m)[t.columns[j]] == Widened(t, j, m[t.columns[j]]))
  {
    forall j | 0 <= j < |t.columns| {
      ColumnIndexOfDistinct(t.columns, j);
    }
  }

  /** The inserted row read by column name. */
  lemma AtInserted(t: Table, m: map<string, Cell>, c: string)
    requires WellFormed(t) && c in t.columns
    ensures At(InsertEmptyRow(t, Some(m)), |t.rows|, c) ==
      (if c in m then Widened(t, ColumnIndex(t.columns, c), m[c]) else Missing)
  {
  }

  /**
   * An integer default shows as the integer, followed by ".0" exactly when
   * its column held floats; any other default shows as itself.
   */
  lemma InsertedCellDisplay(t: Table, m: map<string, Cell>, j: nat)
    requires WellFormed(t) && j < |t.columns| && t.columns[j] in m
    ensures var v := m[t.columns[j]];
      Display(InsertEmptyRow(t, Some(m)).rows[|t.rows|][j]) ==
        (if v.Int? then IntToString(v.i) + (if FloatColumn(t, j) then ".0" else "") else Display(v))
  {
    var v := m[t.columns[j]];
    if v.Int? {
      WholeFloatRepr(v.i);
      assert IntToString(v.i) + "" == IntToString(v.i);
    }
  }

  /**
   * A float64 column stays float64 when the new row puts a number or NaN in
   * it, so later edits there keep storing floats.
   */
  lemma InsertKeepsFloatColumn(t: Table, m: map<string, Cell>, j: nat)
    requires WellFormed(t) && j < |t.columns| && FloatColumn(t, j)
    requires t.columns[j] in m ==> IsNumber(m[t.columns[j]]) || m[t.columns[j]].Missing?
    ensures var r := InsertEmptyRow(t, Some(m));
      WellFormed(r) && j < |r.columns| && FloatColumn(r, j)
  {
    var r := InsertEmptyRow(t, Some(m));
    var k :| 0 <= k < |t.rows| && t.rows[k][j].Float?;
    assert r.rows[k] == r.rows[..|t.rows|][k];
    forall i | 0 <= i < |r.rows| ensures r.rows[i][j].Float? || r.rows[i][j].Missing? {
      if i < |t.rows| {
        assert r.rows[i] == r.rows[..|t.rows|][i];
      }
    }
  }

  /** Appending a row raises the row count by one and keeps the column count. */
  lemma InsertRaisesRowCount(t: Table, default: Option<map<string, Cell>>, parent: ModelIndex)
    requires WellFormed(t) && !parent.IsValid()
    ensures RowCount(InsertEmptyRow(t, default), parent) == RowCount(t, parent) + 1
    ensures ColumnCount(InsertEmptyRow(t, default), parent) == ColumnCount(t, parent)
  {
  }

  /** Positions a selection may pass to `remove_rows`: each in range and none repeated. */
  predicate RemovableRows(t: Table, rows: seq<int>) {
    Distinct(rows) && forall i | 0 <= i < |rows| :: 0 <= rows[i] < |t.rows|
  }

  /**
   * `remove_rows(rows)`: drops the positions in descending order, re-indexing
   * after each drop. The survivors are exactly the rows at the other
   * positions, in their original order.
   */
  function RemoveRows(t: Table, rows: seq<int>): (r: Table)
    requires WellFormed(t) && RemovableRows(t, rows)
    ensures WellFormed(r) && r.columns == t.columns
    ensures r.rows == Keep(t.rows, Elements(rows))
    ensures |r.rows| == |t.rows| - |rows|
  {
    var order := SortDescending(rows);
    RemovalByOrder(t, rows, order);
    Table(t.columns, RemoveEach(t.rows, order))
  }

  lemma RemovalByOrder(t: Table, rows: seq<int>, order: seq<int>)
    requires WellFormed(t) && RemovableRows(t, rows) && order == SortDescending(rows)
    ensures StrictlyDescending(order) && forall i | 0 <= i < |order| :: 0 <= order[i] < |t.rows|
    ensures |order| == |rows|
    ensures RemoveEach(t.rows, order) == Keep(t.rows, Elements(rows))
    ensures forall k | 0 <= k < |Keep(t.rows, Elements(rows))| :: |Keep(t.rows, Elements(rows))[k]| == |t.columns|
  {
    SortDescendingStrict(rows);
    assert forall i | 0 <= i < |order| :: order[i] in Elements(rows);
    KeepNothing(t.rows);
    assert {} + Elements(order) == Elements(rows);
    RemoveEachIsKeep(t.rows, {}, order, t.rows);
    var kept := Keep(t.rows, Elements(rows));
    KeepIsSubset(t.rows, Elements(rows), 0);
    forall k | 0 <= k < |kept| ensures |kept[k]| == |t.columns| {
      assert kept[k] in kept;
    }
  }

  lemma {:induction false} KeepIsSubset<T>(s: seq<T>, drop: set<int>, base: int)
    ensures forall x | x in KeepFrom(s, drop, base) :: x in s
    decreases |s|
  {
    if |s| > 0 {
      KeepIsSubset(s[1..], drop, base + 1);
    }
  }

  /** Removing rows lowers the row count by the number of positions selected. */
  lemma RemoveLowersRowCount(t: Table, rows: seq<int>, parent: ModelIndex)
    requires WellFormed(t) && RemovableRows(t, rows) && !parent.IsValid()
    ensures RowCount(RemoveRows(t, rows), parent) == RowCount(t, parent) - |rows|
    ensures ColumnCount(RemoveRows(t, rows), parent) == ColumnCount(t, parent)
  {
  }

  /** The rows removed depend only on which positions are selected, not on the order of the selection. */
  lemma RemoveRowsOrderIrrelevant(t: Table, a: seq<int>, b: seq<int>)
    requires WellFormed(t) && RemovableRows(t, a) && RemovableRows(t, b)
    requires multiset(a) == multiset(b)
    ensures RemoveRows(t, a) == RemoveRows(t, b)
  {
    assert Elements(a) == Elements(b) by {
      forall x ensures x in a <==> x in b {
        assert x in a <==> x in multiset(a);
        assert x in b <==> x in multiset(b);
      }
    }
  }
}
