/**
 * The sample-types page: the seeded default table, loading and importing
 * with the fixed column list, the next-ID rule of "Add row", and deleting
 * the selected rows.
 */
module SampleTypes {
  import opened Options
  import opened Seqs
  import opened Tables
  import opened Numbers
  import opened Strings
  import TableModel

  const TypeColumns: seq<string> := ["ID", "Type", "Factor", "Value", "Count"]

  /** The two rows written when the file does not exist yet. */
  const DefaultTable: Table := Table(TypeColumns, [
    [Int(1), Text("Acoustic"), Text("SNR"), Int(20), Int(3)],
    [Int(2), Text("Acoustic"), Text("SNR"), Int(21), Int(4)]])

  /** `ensure_csv_exists`: the table to write, only when there is no file. */
  function EnsureCsvExists(fileExists: bool): (w: Option<Table>)
    ensures fileExists <==> w.None?
    ensures w.Some? ==> WellFormed(w.value) && w.value.columns == TypeColumns && |w.value.rows| == 2
  {
    if fileExists then None else Some(DefaultTable)
  }

  // ------------------------------------------------------ numeric columns

  /** The columns `load_csv` passes through `pd.to_numeric`. */
  const NumberColumns: seq<string> := ["ID", "Value", "Count"]

  /** How `pd.to_numeric` reads one cell: NaN, a number, or something it rejects. */
  datatype Reading = NaN | Number(d: Decimal) | NotNumeric

  function ReadNumber(c: Cell): Reading {
    match c
    case Missing => NaN
    case Text(s) =>
      if s == "" then NaN
      else (match ParseDecimal(s)
        case Some(d) => Number(d)
        case None => NotNumeric)
    case Int(i) => Number(Decimal(i, 0))
    case Float(d) => Number(d)
  }

  /** Two readings name the same number, or are both NaN. */
  predicate SameReading(a: Reading, b: Reading) {
    || (a.NaN? && b.NaN?)
    || (a.Number? && b.Number? && SameValue(a.d, b.d))
  }

  predicate AnyNotNumeric(cells: seq<Cell>) {
    exists i | 0 <= i < |cells| :: ReadNumber(cells[i]).NotNumeric?
  }

  /** Every cell is a number with no fractional part (so none is NaN). */
  predicate AllWhole(cells: seq<Cell>) {
    forall i | 0 <= i < |cells| :: ReadNumber(cells[i]).Number? && IsWhole(ReadNumber(cells[i]).d)
  }

  function AsInt(c: Cell): Cell
    requires ReadNumber(c).Number? && IsWhole(ReadNumber(c).d)
  {
    Int(WholeValue(ReadNumber(c).d))
  }

  function AsFloat(c: Cell): Cell {
    match ReadNumber(c)
    case Number(d) => Float(d)
    case _ => Missing
  }

  /**
   * `pd.to_numeric(col, errors="ignore", downcast="integer")`: a column with
   * a cell that is not a number comes back as it was; otherwise a column of
   * whole numbers becomes integers, and any other column (one with a
   * fraction or a blank) becomes floats with NaN for the blanks.
   */
  function ToNumeric(cells: seq<Cell>): (r: seq<Cell>)
    ensures |r| == |cells|
    ensures AnyNotNumeric(cells) ==> r == cells
    ensures !AnyNotNumeric(cells) ==> forall i | 0 <= i < |r| :: SameReading(ReadNumber(r[i]), ReadNumber(cells[i]))
    ensures !AnyNotNumeric(cells) && AllWhole(cells) ==> forall i | 0 <= i < |r| :: r[i].Int?
    ensures !AnyNotNumeric(cells) && !AllWhole(cells) ==> forall i | 0 <= i < |r| :: r[i].Float? || r[i].Missing?
  {
    if AnyNotNumeric(cells) then cells
    else if AllWhole(cells) then
      seq(|cells|, i requires 0 <= i < |cells| => AsInt(cells[i]))
    else
      seq(|cells|, i requires 0 <= i < |cells| => AsFloat(cells[i]))
  }

  /** Converting a converted column changes nothing. */
  lemma ToNumericIdempotent(cells: seq<Cell>)
    ensures ToNumeric(ToNumeric(cells)) == ToNumeric(cells)
  {
    var r := ToNumeric(cells);
    if !AnyNotNumeric(cells) {
      assert !AnyNotNumeric(r) by {
        forall i | 0 <= i < |r| ensures !ReadNumber(r[i]).NotNumeric? {
          assert SameReading(ReadNumber(r[i]), ReadNumber(cells[i]));
        }
      }
      if AllWhole(cells) {
        forall i | 0 <= i < |r| ensures ReadNumber(r[i]).Number? && IsWhole(ReadNumber(r[i]).d) && AsInt(r[i]) == r[i] {
          IntReadsWhole(r[i].i);
        }
      } else {
        var j :| 0 <= j < |cells| && !(ReadNumber(cells[j]).Number? && IsWhole(ReadNumber(cells[j]).d));
        assert !(ReadNumber(r[j]).Number? && IsWhole(ReadNumber(r[j]).d));
        forall i | 0 <= i < |r| ensures AsFloat(r[i]) == r[i] {
        }
      }
    }
  }

  lemma IntReadsWhole(v: int)
    ensures ReadNumber(Int(v)).Number? && IsWhole(ReadNumber(Int(v)).d) && AsInt(Int(v)) == Int(v)
  {
    assert Pow10(0) == 1;
  }

  /** A whole number beside a blank turns into a float, which shows a point: "20" becomes "20.0". */
  lemma BlankMakesFloats(n: int)
    ensures ToNumeric([Text(IntToString(n)), Missing]) == [Float(Decimal(n, 0)), Missing]
    ensures Display(Float(Decimal(n, 0))) == IntToString(n) + ".0"
  {
    ParseDecimalOfIntToString(n);
    NumberBesideBlank(Text(IntToString(n)), Decimal(n, 0));
    WholeFloatRepr(n);
  }

  lemma NumberBesideBlank(c: Cell, d: Decimal)
    requires ReadNumber(c) == Number(d)
    ensures ToNumeric([c, Missing]) == [Float(d), Missing]
  {
    BesideBlankReads(c, d);
    var cells := [c, Missing];
    var r := ToNumeric(cells);
    assert r == seq(2, i requires 0 <= i < 2 => AsFloat(cells[i]));
    assert AsFloat(c) == Float(d) && AsFloat(Missing) == Missing;
    assert r[0] == Float(d) && r[1] == Missing;
  }

  lemma BesideBlankReads(c: Cell, d: Decimal)
    requires ReadNumber(c) == Number(d)
    ensures !AnyNotNumeric([c, Missing]) && !AllWhole([c, Missing])
  {
    var cells := [c, Missing];
    assert ReadNumber(cells[1]) == NaN;
    assert ReadNumber(cells[0]) == Number(d);
  }

  /** Whole numbers written with a point turn into integers: "2.0" becomes 2. */
  lemma PointWholeMakesInts(n: nat)
    ensures ToNumeric([Text(NatToString(n) + ".0")]) == [Int(n)]
  {
    ParsePointZero(n);
    OneZeroPlaceWhole(n);
    WholeAlone(Text(NatToString(n) + ".0"), n);
  }

  lemma WholeAlone(c: Cell, v: int)
    requires ReadNumber(c).Number? && IsWhole(ReadNumber(c).d) && WholeValue(ReadNumber(c).d) == v
    ensures ToNumeric([c]) == [Int(v)]
  {
    assert AllWhole([c]);
  }

  // ------------------------------------------------------------ load and import

  /** The cell the normalisation gives: the file's, or "" for a column the file lacks. */
  function FileCell(t: Table, k: nat, c: string): Cell
    requires WellFormed(t) && k < |t.rows|
  {
    if c in t.columns then At(t, k, c) else Blank
  }

  function FileColumn(t: Table, c: string): (cells: seq<Cell>)
    requires WellFormed(t)
    ensures |cells| == |t.rows|
  {
    seq(|t.rows|, k requires 0 <= k < |t.rows| => FileCell(t, k, c))
  }

  /**
   * `ID`, `Value` and `Count` each replaced by their `pd.to_numeric`
   * conversion; the columns are converted independently, so one pass over
   * the rows gives what the source's loop over the three columns does.
   */
  function ConvertNumbers(n: Table): (r: Table)
    requires WellFormed(n) && n.columns == TypeColumns
    ensures WellFormed(r) && r.columns == TypeColumns && |r.rows| == |n.rows|
    ensures forall k, c | 0 <= k < |n.rows| && c in NumberColumns :: At(r, k, c) == ToNumeric(Column(n, c))[k]
    ensures forall k, c | 0 <= k < |n.rows| && c in ["Type", "Factor"] :: At(r, k, c) == At(n, k, c)
  {
    NumberColumnNames();
    Assemble(n, ToNumeric(Column(n, "ID")), ToNumeric(Column(n, "Value")), ToNumeric(Column(n, "Count")))
  }

  lemma WordColumnNames()
    ensures forall c | c in ["Type", "Factor"] :: c == "Type" || c == "Factor"
  {
  }

  lemma NumberColumnNames()
    ensures forall c | c in NumberColumns :: c == "ID" || c == "Value" || c == "Count"
  {
  }

  /** The table with new `ID`/`Value`/`Count` columns and the `Type`/`Factor` cells of `n`. */
  function Assemble(n: Table, id: seq<Cell>, value: seq<Cell>, count: seq<Cell>): (r: Table)
    requires WellFormed(n) && n.columns == TypeColumns
    requires |id| == |n.rows| && |value| == |n.rows| && |count| == |n.rows|
    ensures WellFormed(r) && r.columns == TypeColumns && |r.rows| == |n.rows|
    ensures forall k | 0 <= k < |n.rows| :: At(r, k, "ID") == id[k] && At(r, k, "Value") == value[k] && At(r, k, "Count") == count[k]
    ensures forall k, c | 0 <= k < |n.rows| && c in ["Type", "Factor"] :: At(r, k, c) == At(n, k, c)
  {
    TypeColumnPositions();
    WordColumnNames();
    Table(TypeColumns, seq(|n.rows|, k requires 0 <= k < |n.rows| => [id[k], n.rows[k][1], n.rows[k][2], value[k], count[k]]))
  }

  /**
   * `load_csv`: the file normalised to the five columns (no rows when it
   * cannot be read), then `ID`, `Value` and `Count` converted by
   * `pd.to_numeric`.
   */
  function LoadCsv(file: FileRead): (t: Table)
    requires ValidRead(file)
    ensures WellFormed(t) && t.columns == TypeColumns
    ensures !file.Parsed? ==> t.rows == []
    ensures file.Parsed? ==> |t.rows| == |file.table.rows|
    ensures file.Parsed? ==> forall k, c | 0 <= k < |t.rows| && c in ["Type", "Factor"] ::
      At(t, k, c) == FileCell(file.table, k, c)
    ensures file.Parsed? ==> forall k, c | 0 <= k < |t.rows| && c in NumberColumns ::
      At(t, k, c) == ToNumeric(FileColumn(file.table, c))[k]
  {
    var n := LoadWithSchema(file, TypeColumns);
    NormalizedColumns(file, n);
    ConvertNumbers(n)
  }

  lemma NormalizedColumns(file: FileRead, n: Table)
    requires ValidRead(file) && n == LoadWithSchema(file, TypeColumns)
    ensures file.Parsed? ==> forall c | c in TypeColumns :: Column(n, c) == FileColumn(file.table, c)
  {
  }

  /** The seed's text as `read_csv(dtype=str)` gives it back, after `to_csv` wrote it. */
  function SeedFile(): Table {
    RereadTable(EnsureCsvExists(false).value)
  }

  /** Loading the freshly seeded file gives back the default table, integers included. */
  lemma LoadSeeded()
    ensures LoadCsv(Parsed(SeedFile())) == DefaultTable
  {
    DefaultRereadable();
    RereadLoads(DefaultTable);
  }

  /** Integer `ID`/`Value`/`Count` cells and ordinary text in `Type`/`Factor`. */
  predicate Rereadable(t: Table)
    requires WellFormed(t) && t.columns == TypeColumns
  {
    && (forall k, c | 0 <= k < |t.rows| && c in NumberColumns :: At(t, k, c).Int?)
    && (forall k, c | 0 <= k < |t.rows| && c in ["Type", "Factor"] :: At(t, k, c).Text? && At(t, k, c).s !in NaTokens)
  }

  lemma DefaultRereadable()
    ensures WellFormed(DefaultTable) && DefaultTable.columns == TypeColumns && Rereadable(DefaultTable)
  {
    DefaultNumbers();
    DefaultWords();
  }

  lemma DefaultNumbers()
    ensures forall k, c | 0 <= k < |DefaultTable.rows| && c in NumberColumns :: At(DefaultTable, k, c).Int?
  {
    var t := DefaultTable;
    assert forall k | 0 <= k < |t.rows| :: t.rows[k][0].Int? && t.rows[k][3].Int? && t.rows[k][4].Int?;
    NumbersByPosition(t);
  }

  lemma DefaultWords()
    ensures forall k, c | 0 <= k < |DefaultTable.rows| && c in ["Type", "Factor"] ::
      At(DefaultTable, k, c).Text? && At(DefaultTable, k, c).s !in NaTokens
  {
    var t := DefaultTable;
    SeedWordsNotNa();
    assert forall k | 0 <= k < |t.rows| :: t.rows[k][1] == Text("Acoustic") && t.rows[k][2] == Text("SNR");
    WordsByPosition(t);
  }

  lemma NumbersByPosition(t: Table)
    requires WellFormed(t) && t.columns == TypeColumns
    requires forall k | 0 <= k < |t.rows| :: t.rows[k][0].Int? && t.rows[k][3].Int? && t.rows[k][4].Int?
    ensures forall k, c | 0 <= k < |t.rows| && c in NumberColumns :: At(t, k, c).Int?
  {
    TypeColumnPositions();
    NumberColumnNames();
  }

  lemma WordsByPosition(t: Table)
    requires WellFormed(t) && t.columns == TypeColumns
    requires forall k | 0 <= k < |t.rows| :: t.rows[k][1].Text? && t.rows[k][1].s !in NaTokens
    requires forall k | 0 <= k < |t.rows| :: t.rows[k][2].Text? && t.rows[k][2].s !in NaTokens
    ensures forall k, c | 0 <= k < |t.rows| && c in ["Type", "Factor"] :: At(t, k, c).Text? && At(t, k, c).s !in NaTokens
  {
    TypeColumnPositions();
    WordColumnNames();
  }

  /** Where each of the five columns sits. */
  lemma TypeColumnPositions()
    ensures ColumnIndex(TypeColumns, "ID") == 0 && ColumnIndex(TypeColumns, "Type") == 1
    ensures ColumnIndex(TypeColumns, "Factor") == 2 && ColumnIndex(TypeColumns, "Value") == 3
    ensures ColumnIndex(TypeColumns, "Count") == 4
  {
    assert Distinct(TypeColumns);
    ColumnIndexOfDistinct(TypeColumns, 0);
    ColumnIndexOfDistinct(TypeColumns, 1);
    ColumnIndexOfDistinct(TypeColumns, 2);
    ColumnIndexOfDistinct(TypeColumns, 3);
    ColumnIndexOfDistinct(TypeColumns, 4);
  }

  lemma SeedWordsNotNa()
    ensures "Acoustic" !in NaTokens && "SNR" !in NaTokens
  {
  }

  /**
   * A table with integer `ID`/`Value`/`Count` cells and ordinary text in
   * `Type`/`Factor`, written and read back as text, loads as itself.
   */
  lemma RereadLoads(t: Table)
    requires WellFormed(t) && t.columns == TypeColumns && Rereadable(t)
    ensures ValidRead(Parsed(RereadTable(t))) && LoadCsv(Parsed(RereadTable(t))) == t
  {
    RereadNumbersLoad(t);
    RereadWordsLoad(t);
    var l := LoadCsv(Parsed(RereadTable(t)));
    forall k, c | 0 <= k < |t.rows| && c in TypeColumns ensures At(l, k, c) == At(t, k, c) {
      if c !in NumberColumns {
        assert c in ["Type", "Factor"];
      }
    }
    TableEq(l, t);
  }

  lemma RereadNumbersLoad(t: Table)
    requires WellFormed(t) && t.columns == TypeColumns && Rereadable(t)
    ensures forall k, c | 0 <= k < |t.rows| && c in NumberColumns ::
      At(LoadCsv(Parsed(RereadTable(t))), k, c) == At(t, k, c)
  {
    var f := RereadTable(t);
    forall c | c in NumberColumns ensures forall k | 0 <= k < |t.rows| :: At(LoadCsv(Parsed(f)), k, c) == At(t, k, c) {
      RereadColumnLoads(t, f, c);
    }
  }

  lemma RereadWordsLoad(t: Table)
    requires WellFormed(t) && t.columns == TypeColumns && Rereadable(t)
    ensures forall k, c | 0 <= k < |t.rows| && c in ["Type", "Factor"] ::
      At(LoadCsv(Parsed(RereadTable(t))), k, c) == At(t, k, c)
  {
    var f := RereadTable(t);
    var l := LoadCsv(Parsed(f));
    forall k, c | 0 <= k < |t.rows| && c in ["Type", "Factor"] ensures At(l, k, c) == At(t, k, c) {
      RereadWordCell(t, f, l, k, c);
    }
  }

  lemma RereadWordCell(t: Table, f: Table, l: Table, k: nat, c: string)
    requires WellFormed(t) && t.columns == TypeColumns && f == RereadTable(t) && l == LoadCsv(Parsed(f))
    requires k < |t.rows| && c in ["Type", "Factor"]
    requires At(t, k, c).Text? && At(t, k, c).s !in NaTokens
    ensures At(l, k, c) == At(t, k, c)
  {
    assert c in TypeColumns;
    assert At(l, k, c) == FileCell(f, k, c);
    RereadText(At(t, k, c));
  }

  /** Text that is not a NaN token comes back from the file unchanged. */
  lemma RereadText(c: Cell)
    requires c.Text? && c.s !in NaTokens
    ensures Reread(c) == c
  {
  }

  lemma RereadColumnLoads(t: Table, f: Table, c: string)
    requires WellFormed(t) && t.columns == TypeColumns && f == RereadTable(t) && c in NumberColumns
    requires forall k | 0 <= k < |t.rows| :: At(t, k, c).Int?
    ensures forall k | 0 <= k < |t.rows| :: ToNumeric(FileColumn(f, c))[k] == At(t, k, c)
  {
    var cells := FileColumn(f, c);
    forall k | 0 <= k < |t.rows| ensures cells[k] == Text(IntToString(At(t, k, c).i)) {
      IntTextNotNa(At(t, k, c).i);
      assert cells[k] == Reread(At(t, k, c));
    }
    forall k | 0 <= k < |t.rows| ensures ReadNumber(cells[k]) == Number(Decimal(At(t, k, c).i, 0)) {
      ParseDecimalOfIntToString(At(t, k, c).i);
    }
    assert Pow10(0) == 1;
    assert !AnyNotNumeric(cells);
    assert AllWhole(cells);
  }

  /** Decimal text of an integer is never one of the NaN tokens: it ends in a digit and none of them does. */
  lemma IntTextNotNa(i: int)
    ensures IntToString(i) !in NaTokens
  {
    IntTextEndsInDigit(i);
    NaTokensEndInNonDigit();
  }

  lemma IntTextEndsInDigit(i: int)
    ensures |IntToString(i)| > 0 && IsDigit(IntToString(i)[|IntToString(i)| - 1])
  {
    var s := IntToString(i);
    var m: nat := if i < 0 then -i else i;
    var d := NatToString(m);
    assert s[|s| - 1] == d[|d| - 1];
  }

  lemma NaTokensEndInNonDigit()
    ensures forall t | t in NaTokens :: t == "" || !IsDigit(t[|t| - 1])
  {
  }

  /**
   * `import_csv_dialog`: a cancelled dialog or a file that cannot be read
   * leaves the current table; otherwise the file normalised like `load_csv`
   * but without the numeric conversion.
   */
  function ImportCsv(current: Option<Table>, picked: string, file: FileRead): (r: Option<Table>)
    requires ValidRead(file)
    ensures picked == "" || !file.Parsed? ==> r == current
    ensures picked != "" && file.Parsed? ==>
      && r.Some? && WellFormed(r.value) && r.value.columns == TypeColumns
      && |r.value.rows| == |file.table.rows|
      && forall k, c | 0 <= k < |file.table.rows| && c in TypeColumns :: At(r.value, k, c) == FileCell(file.table, k, c)
  {
    if picked == "" then current
    else if !file.Parsed? then current
    else Some(Normalize(file.table, TypeColumns))
  }

  /** Importing the seeded file keeps its numbers as text, where loading it turns them into integers. */
  lemma ImportKeepsText()
    ensures ImportCsv(None, "types.csv", Parsed(SeedFile())).value != LoadCsv(Parsed(SeedFile()))
  {
    LoadSeeded();
    DefaultNumbers();
    assert SeedFile() == RereadTable(DefaultTable);
    ImportedIdIsText(DefaultTable, "types.csv", 0);
  }

  /** An integer `ID` written out and imported comes back as its text, so the import differs from the table. */
  lemma ImportedIdIsText(t: Table, picked: string, k: nat)
    requires WellFormed(t) && t.columns == TypeColumns && picked != ""
    requires k < |t.rows| && At(t, k, "ID").Int?
    ensures ImportCsv(None, picked, Parsed(RereadTable(t))).value != t
  {
    var f := RereadTable(t);
    var r := ImportCsv(None, picked, Parsed(f)).value;
    IntTextNotNa(At(t, k, "ID").i);
    assert At(f, k, "ID") == Reread(At(t, k, "ID"));
    assert At(r, k, "ID") == Text(IntToString(At(t, k, "ID").i));
  }

  // --------------------------------------------------------------- next ID

  /** `pd.to_numeric(..., errors="coerce")` of one cell followed by `int(...)`, which truncates toward zero. */
  function Numeric(c: Cell): Option<int> {
    match ReadNumber(c)
    case Number(d) => Some(Trunc(d))
    case _ => None
  }

  /** The `ID` column read by `Numeric`, cell by cell. */
  function IdValues(t: Table): (vs: seq<Option<int>>)
    requires WellFormed(t) && "ID" in t.columns
    ensures |vs| == |t.rows| && forall k | 0 <= k < |t.rows| :: vs[k] == Numeric(At(t, k, "ID"))
  {
    seq(|t.rows|, k requires 0 <= k < |t.rows| => Numeric(At(t, k, "ID")))
  }

  /** The largest of the present values, if any. */
  function MaxOf(vs: seq<Option<int>>): (m: Option<int>)
    ensures m.None? <==> forall i | 0 <= i < |vs| :: vs[i].None?
    ensures m.Some? ==> exists i | 0 <= i < |vs| :: vs[i] == m
    ensures m.Some? ==> forall i | 0 <= i < |vs| && vs[i].Some? :: vs[i].value <= m.value
  {
    if |vs| == 0 then None
    else
      var rest := MaxOf(vs[1..]);
      assert forall i | 1 <= i < |vs| :: vs[i] == vs[1..][i - 1];
      match (vs[0], rest)
      case (None, _) => rest
      case (Some(x), None) => Some(x)
      case (Some(x), Some(y)) => if x < y then Some(y) else Some(x)
  }

  /**
   * The ID "Add row" gives: one more than the largest numeric ID, or 1 when
   * there is no ID column or no numeric ID.
   */
  function NextId(t: Table): (r: int)
    requires WellFormed(t)
    ensures "ID" in t.columns ==> forall k | 0 <= k < |t.rows| && Numeric(At(t, k, "ID")).Some? ::
      Numeric(At(t, k, "ID")).value < r
    ensures ("ID" !in t.columns || forall k | 0 <= k < |t.rows| :: Numeric(At(t, k, "ID")).None?) ==> r == 1
    ensures "ID" in t.columns && (exists k | 0 <= k < |t.rows| :: Numeric(At(t, k, "ID")).Some?) ==>
      exists k | 0 <= k < |t.rows| :: Numeric(At(t, k, "ID")) == Some(r - 1)
  {
    if "ID" !in t.columns then 1
    else
      var m := MaxOf(IdValues(t));
      if m.None? then 1 else m.value + 1
  }

  /** The row "Add row" appends. */
  function NewTypeRow(id: int): map<string, Cell> {
    map["ID" := Int(id), "Type" := Text(""), "Factor" := Text(""), "Value" := Text(""), "Count" := Text("")]
  }

  /** `add_row`: appends a row with the next ID and the other four cells "". */
  function AddRow(model: Option<Table>): (r: Option<Table>)
    requires model.Some? ==> WellFormed(model.value)
    ensures model.None? <==> r.None?
    ensures r.Some? ==> (WellFormed(r.value) && r.value.columns == model.value.columns
      && |r.value.rows| == |model.value.rows| + 1 && r.value.rows[..|model.value.rows|] == model.value.rows)
    ensures r.Some? && "ID" in model.value.columns ==>
      Numeric(At(r.value, |model.value.rows|, "ID")) == Some(NextId(model.value))
  {
    match model
    case None => None
    case Some(t) =>
      AddedIdReads(t);
      Some(TableModel.InsertEmptyRow(t, Some(NewTypeRow(NextId(t)))))
  }

  lemma AddedIdReads(t: Table)
    requires WellFormed(t)
    ensures "ID" in t.columns ==>
      Numeric(At(TableModel.InsertEmptyRow(t, Some(NewTypeRow(NextId(t)))), |t.rows|, "ID")) == Some(NextId(t))
  {
    if "ID" in t.columns {
      TableModel.AtInserted(t, NewTypeRow(NextId(t)), "ID");
      NumericOfInt(NextId(t));
    }
  }

  /**
   * On a table with the five columns, the new row's ID is fresh and its other
   * cells are "". A float64 ID column stays float, so there the ID is stored
   * as a float and shows with ".0".
   */
  lemma AddedRowIsFresh(t: Table)
    requires WellFormed(t) && t.columns == TypeColumns
    ensures var r := AddRow(Some(t)).value;
      && At(r, |t.rows|, "ID") ==
           (if TableModel.FloatColumn(t, 0) then Float(Decimal(NextId(t), 0)) else Int(NextId(t)))
      && Display(At(r, |t.rows|, "ID")) ==
           IntToString(NextId(t)) + (if TableModel.FloatColumn(t, 0) then ".0" else "")
      && Numeric(At(r, |t.rows|, "ID")) == Some(NextId(t))
      && (forall k | 0 <= k < |t.rows| && Numeric(At(t, k, "ID")).Some? ::
            Numeric(At(t, k, "ID")).value < NextId(t))
      && At(r, |t.rows|, "Type") == Blank && At(r, |t.rows|, "Factor") == Blank
      && At(r, |t.rows|, "Value") == Blank && At(r, |t.rows|, "Count") == Blank
  {
    var d := NewTypeRow(NextId(t));
    var r := AddRow(Some(t)).value;
    TableModel.WidenedRowCells(t, d);
    assert TypeColumns[0] == "ID" && TypeColumns[1] == "Type" && TypeColumns[2] == "Factor";
    assert TypeColumns[3] == "Value" && TypeColumns[4] == "Count";
    ColumnIndexOfDistinct(TypeColumns, 0);
    ColumnIndexOfDistinct(TypeColumns, 1);
    ColumnIndexOfDistinct(TypeColumns, 2);
    ColumnIndexOfDistinct(TypeColumns, 3);
    ColumnIndexOfDistinct(TypeColumns, 4);
    TableModel.InsertedCellDisplay(t, d, 0);
    NumericOfInt(NextId(t));
  }

  /**
   * With IDs 1 and a blank, whatever the other cells, the ID column is
   * float64 and "Add row" shows the new ID as "2.0".
   */
  lemma AddRowAfterBlankShowsPoint(t: Table)
    requires WellFormed(t) && t.columns == TypeColumns && |t.rows| == 2
    requires t.rows[0][0] == Float(Decimal(1, 0)) && t.rows[1][0] == Missing
    ensures Display(At(AddRow(Some(t)).value, 2, "ID")) == "2.0"
  {
    FloatIdsThenBlank(t, 1);
    AddedIdDisplay(t);
    TwoPointZero();
  }

  lemma TwoPointZero()
    ensures IntToString(2) + ".0" == "2.0"
  {
    assert IntToString(2) == "2";
  }

  /** An ID `n` and a blank make a float64 ID column whose next ID is `n + 1`. */
  lemma FloatIdsThenBlank(t: Table, n: int)
    requires WellFormed(t) && t.columns == TypeColumns && |t.rows| == 2
    requires t.rows[0][0] == Float(Decimal(n, 0)) && t.rows[1][0] == Missing
    ensures TableModel.FloatColumn(t, 0) && NextId(t) == n + 1
  {
    NumericOfInt(n);
    assert TypeColumns[0] == "ID";
    ColumnIndexOfDistinct(TypeColumns, 0);
    assert IdValues(t) == [Some(n), None];
    assert MaxOf([Some(n), None]) == Some(n);
  }

  /** In a float64 ID column the new ID shows with ".0". */
  lemma AddedIdDisplay(t: Table)
    requires WellFormed(t) && t.columns == TypeColumns && TableModel.FloatColumn(t, 0)
    ensures "ID" in TypeColumns
    ensures Display(At(AddRow(Some(t)).value, |t.rows|, "ID")) == IntToString(NextId(t)) + ".0"
  {
    AddedRowIsFresh(t);
  }

  /** Adding two rows in a row numbers them consecutively. */
  lemma AddRowTwiceCounts(t: Table)
    requires WellFormed(t) && "ID" in t.columns
    ensures var r := AddRow(Some(t)).value;
      NextId(r) == NextId(t) + 1
  {
    var n := NextId(t);
    var r := AddRow(Some(t)).value;
    TableModel.AtInserted(t, NewTypeRow(n), "ID");
    forall k | 0 <= k < |t.rows| ensures At(r, k, "ID") == At(t, k, "ID") {
      AtInPrefix(t, r, k, "ID");
    }
    NumericOfInt(n);
    NextIdAfterAppend(t, r, n);
  }

  /** An integer cell, or the float a float64 column holds for it, reads as the integer. */
  lemma NumericOfInt(v: int)
    ensures Numeric(Int(v)) == Some(v)
    ensures Numeric(Float(Decimal(v, 0))) == Some(v)
  {
    assert Pow10(0) == 1;
    assert Trunc(Decimal(v, 0)) == v;
  }

  /** A table extended by one row whose ID is the old `NextId` has that ID plus one as its own. */
  lemma NextIdAfterAppend(t: Table, r: Table, n: int)
    requires WellFormed(t) && WellFormed(r) && "ID" in t.columns && r.columns == t.columns
    requires |r.rows| == |t.rows| + 1 && n == NextId(t)
    requires forall k | 0 <= k < |t.rows| :: At(r, k, "ID") == At(t, k, "ID")
    requires Numeric(At(r, |t.rows|, "ID")) == Some(n)
    ensures NextId(r) == n + 1
  {
    IdValuesAppend(t, r, n);
    IdValuesBelowNext(t);
    MaxOfAppend(IdValues(t), n);
  }

  lemma IdValuesAppend(t: Table, r: Table, n: int)
    requires WellFormed(t) && WellFormed(r) && "ID" in t.columns && r.columns == t.columns
    requires |r.rows| == |t.rows| + 1
    requires forall k | 0 <= k < |t.rows| :: At(r, k, "ID") == At(t, k, "ID")
    requires Numeric(At(r, |t.rows|, "ID")) == Some(n)
    ensures IdValues(r) == IdValues(t) + [Some(n)]
  {
  }

  lemma IdValuesBelowNext(t: Table)
    requires WellFormed(t) && "ID" in t.columns
    ensures forall i | 0 <= i < |IdValues(t)| && IdValues(t)[i].Some? :: IdValues(t)[i].value < NextId(t)
  {
  }

  /** Appending a value above every present one makes it the maximum. */
  lemma MaxOfAppend(vs: seq<Option<int>>, n: int)
    requires forall i | 0 <= i < |vs| && vs[i].Some? :: vs[i].value < n
    ensures MaxOf(vs + [Some(n)]) == Some(n)
  {
    var s := vs + [Some(n)];
    assert s[|vs|] == Some(n);
    assert forall j | 0 <= j < |vs| :: s[j] == vs[j];
    forall j | 0 <= j < |s| && s[j].Some? ensures s[j].value <= n {
      if j < |vs| {
        assert s[j] == vs[j];
      }
    }
    var m := MaxOf(s);
    var i :| 0 <= i < |s| && s[i] == m;
  }

  /** `delete_selected_rows`: with a selection, exactly the selected rows go; otherwise nothing changes. */
  function DeleteSelected(model: Option<Table>, selected: seq<int>): (r: Option<Table>)
    requires model.Some? ==> WellFormed(model.value) && TableModel.RemovableRows(model.value, selected)
    ensures model.None? || |selected| == 0 ==> r == model
    ensures model.Some? && |selected| > 0 ==>
      r == Some(Table(model.value.columns, Keep(model.value.rows, Elements(selected))))
  {
    if model.None? || |selected| == 0 then model
    else Some(TableModel.RemoveRows(model.value, selected))
  }
}
