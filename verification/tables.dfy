/**
 * String-valued tables as the pages hold them in pandas DataFrames: an
 * ordered list of column names and rows of cells, where a cell may be
 * missing (NaN). The module also holds the schema normaliser every CSV
 * load repeats: add the missing columns as "", reorder to the schema, drop
 * the rest, and fall back to an empty table when the file cannot be read.
 */
module Tables {
  import opened Options
  import opened Strings
  import opened Seqs
  import opened Numbers

  /** A cell: missing (NaN), text, or a number stored by numeric conversion (an integer or a float). */
  datatype Cell = Missing | Text(s: string) | Int(i: int) | Float(d: Decimal)

  /** A cell pandas holds as a number rather than an object. */
  predicate IsNumber(c: Cell) {
    c.Int? || c.Float?
  }

  type Row = seq<Cell>

  datatype Table = Table(columns: seq<string>, rows: seq<Row>)

  /** Column names are unique (pandas' CSV reader renames repeated headers) and every row has one cell per column. */
  predicate WellFormed(t: Table) {
    Distinct(t.columns) && forall k | 0 <= k < |t.rows| :: |t.rows[k]| == |t.columns|
  }

  const Blank: Cell := Text("")

  /** What the table view shows for a cell: `"" if pd.isna(v) else str(v)`. */
  function Display(c: Cell): string {
    match c
    case Missing => ""
    case Text(s) => s
    case Int(i) => IntToString(i)
    case Float(d) => FloatRepr(d)
  }

  /** Python's `str(v)` / `astype(str)`, which renders NaN as "nan". */
  function StrOf(c: Cell): string {
    match c
    case Missing => "nan"
    case Text(s) => s
    case Int(i) => IntToString(i)
    case Float(d) => FloatRepr(d)
  }

  /** `str(v or "")`: NaN is truthy and becomes "nan", while "", 0 and 0.0 are falsy and become "". */
  function StrOrEmpty(c: Cell): string {
    match c
    case Missing => "nan"
    case Text(s) => s
    case Int(i) => if i == 0 then "" else IntToString(i)
    case Float(d) => if d.digits == 0 then "" else FloatRepr(d)
  }

  /** Position of a column name. */
  function ColumnIndex(cols: seq<string>, c: string): (k: nat)
    requires c in cols
    ensures k < |cols| && cols[k] == c
    ensures forall j | 0 <= j < k :: cols[j] != c
  {
    if cols[0] == c then 0 else 1 + ColumnIndex(cols[1..], c)
  }

  lemma ColumnIndexOfDistinct(cols: seq<string>, k: nat)
    requires Distinct(cols) && k < |cols|
    ensures ColumnIndex(cols, cols[k]) == k
  {
  }

  /** `df.at[k, c]` by position `k` and column name `c`. */
  function At(t: Table, k: nat, c: string): Cell
    requires WellFormed(t) && k < |t.rows| && c in t.columns
  {
    t.rows[k][ColumnIndex(t.columns, c)]
  }

  /** `df[c]` as a sequence of cells. */
  function Column(t: Table, c: string): (cells: seq<Cell>)
    requires WellFormed(t) && c in t.columns
    ensures |cells| == |t.rows|
    ensures forall k | 0 <= k < |t.rows| :: cells[k] == At(t, k, c)
  {
    seq(|t.rows|, k requires 0 <= k < |t.rows| => At(t, k, c))
  }

  // --------------------------------------------------------- normalisation

  function NormalRow(t: Table, k: nat, schema: seq<string>): Row
    requires WellFormed(t) && k < |t.rows|
  {
    seq(|schema|, j requires 0 <= j < |schema| =>
      if schema[j] in t.columns then At(t, k, schema[j]) else Blank)
  }

  /**
   * `for c in schema: if c not in df.columns: df[c] = ""` followed by
   * `df = df[schema]`.
   */
  function Normalize(t: Table, schema: seq<string>): (r: Table)
    requires WellFormed(t) && Distinct(schema)
    ensures WellFormed(r)
    ensures r.columns == schema
    ensures |r.rows| == |t.rows|
    ensures forall k, c | 0 <= k < |t.rows| && c in schema ::
      At(r, k, c) == (if c in t.columns then At(t, k, c) else Blank)
  {
    var r := Table(schema, seq(|t.rows|, k requires 0 <= k < |t.rows| => NormalRow(t, k, schema)));
    assert forall k, c | 0 <= k < |t.rows| && c in schema ::
      At(r, k, c) == (if c in t.columns then At(t, k, c) else Blank) by {
      forall k, c | 0 <= k < |t.rows| && c in schema
        ensures At(r, k, c) == (if c in t.columns then At(t, k, c) else Blank)
      {
        var j := ColumnIndex(schema, c);
        assert r.rows[k][j] == NormalRow(t, k, schema)[j];
      }
    }
    r
  }

  /** A table that already has exactly the schema's columns, in order, is left as it is. */
  lemma NormalizeKeepsNormal(t: Table, schema: seq<string>)
    requires WellFormed(t) && Distinct(schema) && t.columns == schema
    ensures Normalize(t, schema) == t
  {
    var r := Normalize(t, schema);
    forall k | 0 <= k < |t.rows| ensures r.rows[k] == t.rows[k] {
      forall j | 0 <= j < |schema| ensures r.rows[k][j] == t.rows[k][j] {
        ColumnIndexOfDistinct(schema, j);
        assert At(r, k, schema[j]) == At(t, k, schema[j]);
      }
    }
  }

  /** Normalising twice to the same schema is normalising once. */
  lemma NormalizeIdempotent(t: Table, schema: seq<string>)
    requires WellFormed(t) && Distinct(schema)
    ensures Normalize(Normalize(t, schema), schema) == Normalize(t, schema)
  {
    NormalizeKeepsNormal(Normalize(t, schema), schema);
  }

  /** The outcome of `pd.read_csv` on a path: no file, a file the reader rejects, or the parsed table. */
  datatype FileRead = Absent | Unreadable | Parsed(table: Table)

  predicate ValidRead(f: FileRead) {
    f.Parsed? ==> WellFormed(f.table)
  }

  /** The field texts `pd.read_csv` reads as NaN by default. */
  const NaTokens: set<string> := {"", "#N/A", "#N/A N/A", "#NA", "-1.#IND", "-1.#QNAN", "-NaN", "-nan",
    "1.#IND", "1.#QNAN", "<NA>", "N/A", "NA", "NULL", "NaN", "None", "n/a", "nan", "null"}

  /** A cell written by `to_csv` (NaN as "") and read back by `read_csv(dtype=str)`. */
  function Reread(c: Cell): Cell {
    if Display(c) in NaTokens then Missing else Text(Display(c))
  }

  /** A table written by `to_csv(index=False)` and read back by `read_csv(dtype=str)`. */
  function RereadTable(t: Table): (r: Table)
    requires WellFormed(t)
    ensures WellFormed(r) && r.columns == t.columns && |r.rows| == |t.rows|
    ensures forall k, c | 0 <= k < |t.rows| && c in t.columns :: At(r, k, c) == Reread(At(t, k, c))
  {
    Table(t.columns, seq(|t.rows|, k requires 0 <= k < |t.rows| =>
      seq(|t.columns|, j requires 0 <= j < |t.columns| => Reread(t.rows[k][j]))))
  }

  /**
   * `try: df = pd.read_csv(...) except Exception: df = pd.DataFrame(columns=schema)`
   * followed by the normalisation to `schema`.
   */
  function LoadWithSchema(f: FileRead, schema: seq<string>): (r: Table)
    requires ValidRead(f) && Distinct(schema)
    ensures WellFormed(r) && r.columns == schema
    ensures !f.Parsed? ==> r.rows == []
    ensures f.Parsed? ==> |r.rows| == |f.table.rows|
    ensures f.Parsed? ==> forall k, c | 0 <= k < |r.rows| && c in schema ::
      At(r, k, c) == (if c in f.table.columns then At(f.table, k, c) else Blank)
  {
    match f
    case Parsed(t) => Normalize(t, schema)
    case _ => Table(schema, [])
  }

  /** Two tables with the same columns, the same row count and the same cell everywhere are equal. */
  lemma TableEq(a: Table, b: Table)
    requires WellFormed(a) && WellFormed(b) && a.columns == b.columns && |a.rows| == |b.rows|
    requires forall k, c | 0 <= k < |a.rows| && c in a.columns :: At(a, k, c) == At(b, k, c)
    ensures a == b
  {
    forall k | 0 <= k < |a.rows| ensures a.rows[k] == b.rows[k] {
      forall j | 0 <= j < |a.columns| ensures a.rows[k][j] == b.rows[k][j] {
        ColumnIndexOfDistinct(a.columns, j);
        assert At(a, k, a.columns[j]) == At(b, k, a.columns[j]);
      }
    }
  }

  // ------------------------------------------------------ adding columns

  /** `if c not in df.columns: df[c] = ""`: a new last column of "" cells. */
  function AddColumn(t: Table, c: string): (r: Table)
    requires WellFormed(t)
  {
    if c in t.columns then t
    else Table(t.columns + [c], seq(|t.rows|, k requires 0 <= k < |t.rows| => t.rows[k] + [Blank]))
  }

  lemma AddColumnFacts(t: Table, c: string)
    requires WellFormed(t)
    ensures var r := AddColumn(t, c);
      && WellFormed(r) && |r.rows| == |t.rows|
      && r.columns == t.columns + (if c in t.columns then [] else [c])
      && (forall k | 0 <= k < |t.rows| :: r.rows[k][..|t.columns|] == t.rows[k])
      && (forall k, j | 0 <= k < |t.rows| && |t.columns| <= j < |r.columns| :: r.rows[k][j] == Blank)
  {
    var r := AddColumn(t, c);
    if c !in t.columns {
      assert forall k | 0 <= k < |t.rows| :: r.rows[k][..|t.columns|] == t.rows[k];
    }
  }

  /** `for c in cols: if c not in df.columns: df[c] = ""`: no existing column moves or changes. */
  function AddMissingColumns(t: Table, cols: seq<string>): (r: Table)
    requires WellFormed(t)
    ensures WellFormed(r)
    ensures |r.rows| == |t.rows|
    ensures |t.columns| <= |r.columns| && r.columns[..|t.columns|] == t.columns
    ensures forall c | c in cols :: c in r.columns
    ensures forall c | c in r.columns :: c in t.columns || c in cols
    ensures forall k | 0 <= k < |t.rows| :: r.rows[k][..|t.columns|] == t.rows[k]
    ensures forall k, j | 0 <= k < |t.rows| && |t.columns| <= j < |r.columns| :: r.rows[k][j] == Blank
    decreases |cols|
  {
    if |cols| == 0 then t
    else
      var t1 := AddColumn(t, cols[0]);
      AddColumnFacts(t, cols[0]);
      var r := AddMissingColumns(t1, cols[1..]);
      AddColumnThenMore(t, t1, r, cols);
      r
  }

  /** Composes one added column with the rest: the facts `AddMissingColumns` promises carry over. */
  lemma AddColumnThenMore(t: Table, t1: Table, r: Table, cols: seq<string>)
    requires WellFormed(t) && |cols| > 0 && t1 == AddColumn(t, cols[0])
    requires WellFormed(r) && |r.rows| == |t1.rows|
    requires |t1.columns| <= |r.columns| && r.columns[..|t1.columns|] == t1.columns
    requires forall c | c in cols[1..] :: c in r.columns
    requires forall c | c in r.columns :: c in t1.columns || c in cols[1..]
    requires forall k | 0 <= k < |t1.rows| :: r.rows[k][..|t1.columns|] == t1.rows[k]
    requires forall k, j | 0 <= k < |t1.rows| && |t1.columns| <= j < |r.columns| :: r.rows[k][j] == Blank
    ensures |t.columns| <= |r.columns| && r.columns[..|t.columns|] == t.columns
    ensures forall c | c in cols :: c in r.columns
    ensures forall c | c in r.columns :: c in t.columns || c in cols
    ensures forall k | 0 <= k < |t.rows| :: r.rows[k][..|t.columns|] == t.rows[k]
    ensures forall k, j | 0 <= k < |t.rows| && |t.columns| <= j < |r.columns| :: r.rows[k][j] == Blank
  {
    AddColumnFacts(t, cols[0]);
    assert cols[0] in r.columns[..|t1.columns|];
    forall c | c in cols ensures c in r.columns {
      if c != cols[0] {
        assert c in cols[1..];
      }
    }
    forall k | 0 <= k < |t.rows| ensures r.rows[k][..|t.columns|] == t.rows[k] {
      assert r.rows[k][..|t.columns|] == r.rows[k][..|t1.columns|][..|t.columns|];
    }
    forall k, j | 0 <= k < |t.rows| && |t.columns| <= j < |r.columns| ensures r.rows[k][j] == Blank {
      if j < |t1.columns| {
        assert r.rows[k][j] == r.rows[k][..|t1.columns|][j];
      }
    }
  }

  /** Adding columns that are all present already changes nothing. */
  lemma {:induction false} AllPresentUnchanged(t: Table, cols: seq<string>)
    requires WellFormed(t) && forall c | c in cols :: c in t.columns
    ensures AddMissingColumns(t, cols) == t
    decreases |cols|
  {
    if |cols| > 0 {
      assert AddColumn(t, cols[0]) == t;
      assert forall c | c in cols[1..] :: c in cols;
      AllPresentUnchanged(t, cols[1..]);
    }
  }

  /** A column added by `AddMissingColumns` sits after the old ones; old columns keep their cells. */
  lemma AtAfterAddMissing(t: Table, cols: seq<string>, k: nat, c: string)
    requires WellFormed(t) && k < |t.rows| && c in t.columns
    ensures c in AddMissingColumns(t, cols).columns
    ensures At(AddMissingColumns(t, cols), k, c) == At(t, k, c)
  {
    var r := AddMissingColumns(t, cols);
    var j := ColumnIndex(t.columns, c);
    assert r.columns[j] == c;
    ColumnIndexOfDistinct(r.columns, j);
    assert r.rows[k][..|t.columns|][j] == t.rows[k][j];
  }

  lemma AtAddedColumn(t: Table, cols: seq<string>, k: nat, c: string)
    requires WellFormed(t) && k < |t.rows| && c in cols && c !in t.columns
    ensures c in AddMissingColumns(t, cols).columns
    ensures At(AddMissingColumns(t, cols), k, c) == Blank
  {
  }

  /** Adding one column appends it at the end, unless it is already there. */
  lemma AddOneColumn(t: Table, c: string)
    requires WellFormed(t)
    ensures AddMissingColumns(t, [c]) == AddColumn(t, c)
    ensures AddMissingColumns(t, [c]).columns == t.columns + (if c in t.columns then [] else [c])
  {
    assert [c][1..] == [];
  }

  // ---------------------------------------------------------- adding rows

  /**
   * The row pandas builds for `df.loc[len(df)] = d`: the dictionary's value
   * under each column, NaN for columns the dictionary lacks; keys that are
   * not columns are ignored.
   */
  function RowFromMap(cols: seq<string>, d: map<string, Cell>): (r: Row)
    ensures |r| == |cols|
    ensures forall j | 0 <= j < |cols| :: r[j] == (if cols[j] in d then d[cols[j]] else Missing)
  {
    seq(|cols|, j requires 0 <= j < |cols| => if cols[j] in d then d[cols[j]] else Missing)
  }

  /** `{**{c: "" for c in cols}, **fields}` as cells. */
  function Defaulted(cols: seq<string>, fields: map<string, string>): (d: map<string, Cell>)
    ensures forall c | c in cols :: c in d
    ensures forall c | c in d :: d[c] == Text(if c in fields then fields[c] else "")
  {
    map c | c in Elements(cols) + fields.Keys :: Text(if c in fields then fields[c] else "")
  }

  /** `df.loc[len(df)] = d` on a frame indexed 0..n-1: one new last row. */
  function AppendRow(t: Table, d: map<string, Cell>): (r: Table)
    requires WellFormed(t)
    ensures WellFormed(r)
    ensures r.columns == t.columns
    ensures |r.rows| == |t.rows| + 1 && r.rows[..|t.rows|] == t.rows
  {
    Table(t.columns, t.rows + [RowFromMap(t.columns, d)])
  }

  lemma AtAppended(t: Table, d: map<string, Cell>, c: string)
    requires WellFormed(t) && c in t.columns
    ensures At(AppendRow(t, d), |t.rows|, c) == (if c in d then d[c] else Missing)
  {
  }

  /** A table whose rows begin with another's (same columns) reads the same on those rows. */
  lemma AtInPrefix(base: Table, r: Table, k: nat, c: string)
    requires WellFormed(base) && WellFormed(r) && r.columns == base.columns
    requires |base.rows| <= |r.rows| && r.rows[..|base.rows|] == base.rows
    requires k < |base.rows| && c in base.columns
    ensures At(r, k, c) == At(base, k, c)
  {
    assert r.rows[k] == r.rows[..|base.rows|][k];
  }

  lemma AtBeforeAppended(t: Table, d: map<string, Cell>, k: nat, c: string)
    requires WellFormed(t) && c in t.columns && k < |t.rows|
    ensures At(AppendRow(t, d), k, c) == At(t, k, c)
  {
  }

  // ------------------------------------------------------ masked assignment

  /** `df[c].astype(str) == value` as a boolean mask. */
  function MatchMask(t: Table, c: string, value: string): (mask: seq<bool>)
    requires WellFormed(t) && c in t.columns
    ensures |mask| == |t.rows|
    ensures forall k | 0 <= k < |t.rows| :: mask[k] == (StrOf(At(t, k, c)) == value)
  {
    seq(|t.rows|, k requires 0 <= k < |t.rows| => StrOf(At(t, k, c)) == value)
  }

  predicate AnyTrue(mask: seq<bool>) {
    exists k | 0 <= k < |mask| :: mask[k]
  }

  /** `df.loc[mask, c] = v`: only the masked rows' cell in column `c` changes. */
  function AssignWhere(t: Table, mask: seq<bool>, c: string, v: Cell): (r: Table)
    requires WellFormed(t) && c in t.columns && |mask| == |t.rows|
    ensures WellFormed(r) && r.columns == t.columns && |r.rows| == |t.rows|
    ensures forall k, d | 0 <= k < |t.rows| && d in t.columns ::
      At(r, k, d) == (if d == c && mask[k] then v else At(t, k, d))
  {
    var j := ColumnIndex(t.columns, c);
    var r := Table(t.columns, seq(|t.rows|, k requires 0 <= k < |t.rows| =>
      if mask[k] then t.rows[k][j := v] else t.rows[k]));
    assert forall k, d | 0 <= k < |t.rows| && d in t.columns ::
      At(r, k, d) == (if d == c && mask[k] then v else At(t, k, d)) by {
      forall k, d | 0 <= k < |t.rows| && d in t.columns
        ensures At(r, k, d) == (if d == c && mask[k] then v else At(t, k, d))
      {
        var i := ColumnIndex(t.columns, d);
        assert d != c ==> i != j;
      }
    }
    r
  }

  /** Adding a column and then assigning into it leaves every other column's cells as they were. */
  lemma AssignAfterAddKeeps(t: Table, t1: Table, t': Table, mask: seq<bool>, lc: string, v: Cell)
    requires WellFormed(t)
    requires t1 == AddMissingColumns(t, [lc]) && |mask| == |t1.rows|
    requires t' == AssignWhere(t1, mask, lc, v)
    ensures forall k, c | 0 <= k < |t.rows| && c in t.columns && c != lc :: At(t', k, c) == At(t, k, c)
  {
    forall k, c | 0 <= k < |t.rows| && c in t.columns && c != lc ensures At(t', k, c) == At(t, k, c) {
      AssignAfterAddCell(t, mask, lc, v, k, c);
    }
  }

  lemma AssignAfterAddCell(t: Table, mask: seq<bool>, lc: string, v: Cell, k: nat, c: string)
    requires WellFormed(t) && |mask| == |t.rows| && k < |t.rows| && c in t.columns && c != lc
    ensures var t1 := AddMissingColumns(t, [lc]);
      c in t1.columns && At(AssignWhere(t1, mask, lc, v), k, c) == At(t, k, c)
  {
    AtAfterAddMissing(t, [lc], k, c);
  }

  // ------------------------------------------------------------- search

  /**
   * How a search reads a cell: through `astype(str)`, which turns a missing
   * cell into "nan", or through the bare `.str` accessor with `na=False`,
   * which sees text cells only.
   */
  datatype TextView = AsStr | TextOnly

  /** `.str.lower().str.contains(q)` on one cell, as plain substring search. */
  predicate CellContains(c: Cell, q: string, v: TextView) {
    match v
    case AsStr => Contains(Lower(StrOf(c)), q)
    case TextOnly => c.Text? && Contains(Lower(c.s), q)
  }

  /** Whether a row of a table with columns `cols` has `q` in column `a` or column `b`. */
  predicate SearchHit(cols: seq<string>, a: string, b: string, q: string, v: TextView, row: Row) {
    |row| == |cols| && a in cols && b in cols &&
    (CellContains(row[ColumnIndex(cols, a)], q, v) || CellContains(row[ColumnIndex(cols, b)], q, v))
  }

  function HitTest(cols: seq<string>, a: string, b: string, q: string, v: TextView): Row -> bool {
    (row: Row) => SearchHit(cols, a, b, q, v, row)
  }

  /** A search box's text as the searches use it: stripped, then lower-cased. */
  function Query(text: string): string {
    Lower(Strip(text))
  }

  /** `df[col_a ... contains(q) | col_b ... contains(q)]`: the rows with `q` in either column, in order. */
  function Search(t: Table, a: string, b: string, q: string, v: TextView): (r: Table)
    requires WellFormed(t) && a in t.columns && b in t.columns
    ensures WellFormed(r) && r.columns == t.columns && |r.rows| <= |t.rows|
    ensures IsSubsequence(r.rows, t.rows)
    ensures forall k | 0 <= k < |t.rows| ::
      t.rows[k] in r.rows <==> CellContains(At(t, k, a), q, v) || CellContains(At(t, k, b), q, v)
    ensures forall row | row in r.rows :: row in t.rows
    ensures forall k | 0 <= k < |t.rows| ::
      multiset(r.rows)[t.rows[k]] ==
        (if CellContains(At(t, k, a), q, v) || CellContains(At(t, k, b), q, v) then multiset(t.rows)[t.rows[k]] else 0)
  {
    SearchRows(t, a, b, q, v);
    Table(t.columns, Filter(t.rows, HitTest(t.columns, a, b, q, v)))
  }

  /** The masked rows of a search: in order, every copy of each hit and nothing else. */
  lemma SearchRows(t: Table, a: string, b: string, q: string, v: TextView)
    requires WellFormed(t) && a in t.columns && b in t.columns
    ensures var rows := Filter(t.rows, HitTest(t.columns, a, b, q, v));
      && IsSubsequence(rows, t.rows)
      && (forall k | 0 <= k < |t.rows| ::
        t.rows[k] in rows <==> CellContains(At(t, k, a), q, v) || CellContains(At(t, k, b), q, v))
      && (forall k | 0 <= k < |rows| :: rows[k] in t.rows)
      && (forall k | 0 <= k < |t.rows| ::
        multiset(rows)[t.rows[k]] ==
          (if CellContains(At(t, k, a), q, v) || CellContains(At(t, k, b), q, v) then multiset(t.rows)[t.rows[k]] else 0))
  {
    var p := HitTest(t.columns, a, b, q, v);
    FilterIsSubsequence(t.rows, p);
    FilterCounts(t.rows, p);
    forall k | 0 <= k < |t.rows|
      ensures p(t.rows[k]) <==> CellContains(At(t, k, a), q, v) || CellContains(At(t, k, b), q, v)
    {
      assert At(t, k, a) == t.rows[k][ColumnIndex(t.columns, a)];
      assert At(t, k, b) == t.rows[k][ColumnIndex(t.columns, b)];
    }
  }

  /** Searching the result of a search for the same text changes nothing. */
  lemma SearchIdempotent(t: Table, a: string, b: string, q: string, v: TextView)
    requires WellFormed(t) && a in t.columns && b in t.columns
    ensures Search(Search(t, a, b, q, v), a, b, q, v) == Search(t, a, b, q, v)
  {
    FilterIdempotent(t.rows, HitTest(t.columns, a, b, q, v));
  }

  /** When every row has a hit, the search keeps the whole table. */
  lemma SearchAllHits(t: Table, a: string, b: string, q: string, v: TextView)
    requires WellFormed(t) && a in t.columns && b in t.columns
    requires forall k | 0 <= k < |t.rows| :: CellContains(At(t, k, a), q, v) || CellContains(At(t, k, b), q, v)
    ensures Search(t, a, b, q, v) == t
  {
    var p := HitTest(t.columns, a, b, q, v);
    forall k | 0 <= k < |t.rows| ensures p(t.rows[k]) {
      assert At(t, k, a) == t.rows[k][ColumnIndex(t.columns, a)];
      assert At(t, k, b) == t.rows[k][ColumnIndex(t.columns, b)];
      assert CellContains(At(t, k, a), q, v) || CellContains(At(t, k, b), q, v);
    }
    FilterAll(t.rows, HitTest(t.columns, a, b, q, v));
  }

  // ------------------------------------------------------- selecting rows

  /** The columns the metadata report and the edit hub show. */
  const MetaViewColumns: seq<string> := ["sample_id", "sample_name", "date", "time", "labels_csv", "created_at"]

  lemma MetaViewColumnsDistinct()
    ensures Distinct(MetaViewColumns)
  {
  }

  /** `df.iloc[positions]`: the rows at the given positions, in that order. */
  function Pick(t: Table, positions: seq<nat>): (r: Table)
    requires WellFormed(t) && forall i | 0 <= i < |positions| :: positions[i] < |t.rows|
    ensures WellFormed(r) && r.columns == t.columns && |r.rows| == |positions|
    ensures forall i | 0 <= i < |positions| :: r.rows[i] == t.rows[positions[i]]
  {
    Table(t.columns, seq(|positions|, i requires 0 <= i < |positions| => t.rows[positions[i]]))
  }

  lemma AtPicked(t: Table, positions: seq<nat>, i: nat, c: string)
    requires WellFormed(t) && forall i | 0 <= i < |positions| :: positions[i] < |t.rows|
    requires i < |positions| && c in t.columns
    ensures At(Pick(t, positions), i, c) == At(t, positions[i], c)
  {
  }

  /** `row.get(c, default)` on row `k`. */
  function Get(t: Table, k: nat, c: string, default: Cell): Cell
    requires WellFormed(t) && k < |t.rows|
  {
    if c in t.columns then At(t, k, c) else default
  }
}
