/**
 * The labels picker: lists the label files of one sample, filters the list
 * and hands the chosen file's path to the label editor.
 *
 * The directory is a parameter: whether it exists and its entries, each with
 * the size and modification texts its `stat` would give, or none when `stat`
 * fails.
 */
module LabelsPicker {
  import opened Options
  import opened Strings
  import opened Seqs
  import opened Sorting
  import opened Tables
  import opened Paths
  import opened TableModel

  const PickerColumns: seq<string> := ["csv_name", "csv_path", "size_kb", "modified"]

  lemma PickerColumnsDistinct()
    ensures Distinct(PickerColumns)
  {
  }

  lemma PickerColumnIndexes()
    ensures ColumnIndex(PickerColumns, "csv_name") == 0 && ColumnIndex(PickerColumns, "csv_path") == 1
    ensures ColumnIndex(PickerColumns, "size_kb") == 2 && ColumnIndex(PickerColumns, "modified") == 3
  {
  }

  /** The already formatted `f"{size/1024:.1f}"` and `strftime` texts of a file. */
  datatype Stat = Stat(sizeKb: string, modified: string)

  datatype Entry = Entry(name: string, stat: Option<Stat>)

  function EntryName(e: Entry): string {
    e.name
  }

  function Matching(sampleId: string): Entry -> bool {
    (e: Entry) => MatchesSampleCsv(sampleId, e.name)
  }

  /** The entries `glob(f"{sample_id}__*.csv")` yields, sorted; within one directory path order is name order. */
  function Listed(sampleId: string, entries: seq<Entry>): (r: seq<Entry>)
    ensures |r| <= |entries|
    ensures forall e :: e in r <==> e in entries && MatchesSampleCsv(sampleId, e.name)
    ensures SortedBy(r, EntryName)
  {
    var matching := Filter(entries, Matching(sampleId));
    var r := SortBy(matching, EntryName);
    assert |r| == |matching| by {
      assert |multiset(r)| == |multiset(matching)|;
    }
    forall e ensures e in r <==> e in entries && MatchesSampleCsv(sampleId, e.name) {
      assert e in r <==> e in multiset(r);
      assert e in matching <==> e in multiset(matching);
      assert Matching(sampleId)(e) == MatchesSampleCsv(sampleId, e.name);
    }
    r
  }

  /** One row of the scan: name, path, and the stat texts, or "" for both when `stat` fails. */
  function ScanRow(dir: string, e: Entry): Row {
    match e.stat
    case Some(st) => [Text(e.name), Text(Join(dir, e.name)), Text(st.sizeKb), Text(st.modified)]
    case None => [Text(e.name), Text(Join(dir, e.name)), Blank, Blank]
  }

  /** `_scan_csvs`: the four-column table of the sample's label files, empty when the directory does not exist. */
  function Scan(dirExists: bool, dir: string, sampleId: string, entries: seq<Entry>): (t: Table)
    ensures WellFormed(t) && t.columns == PickerColumns
    ensures !dirExists ==> t.rows == []
    ensures dirExists ==> (|t.rows| == |Listed(sampleId, entries)| &&
      forall k | 0 <= k < |t.rows| :: t.rows[k] == ScanRow(dir, Listed(sampleId, entries)[k]))
  {
    PickerColumnsDistinct();
    var listed := if dirExists then Listed(sampleId, entries) else [];
    Table(PickerColumns, seq(|listed|, k requires 0 <= k < |listed| => ScanRow(dir, listed[k])))
  }

  lemma ScanRowAt(dir: string, sampleId: string, entries: seq<Entry>, k: nat)
    requires k < |Scan(true, dir, sampleId, entries).rows|
    ensures var (t, e) := (Scan(true, dir, sampleId, entries), Listed(sampleId, entries)[k]);
      && e in entries && MatchesSampleCsv(sampleId, e.name)
      && t.rows[k][0] == Text(e.name) && t.rows[k][1] == Text(Join(dir, e.name))
  {
    var listed := Listed(sampleId, entries);
    assert listed[k] in listed;
  }

  /** Every scanned row is the name and path of a directory entry matching the sample's pattern. */
  lemma ScanRowsMatch(dir: string, sampleId: string, entries: seq<Entry>)
    ensures var t := Scan(true, dir, sampleId, entries);
      forall k | 0 <= k < |t.rows| :: exists e | e in entries ::
        MatchesSampleCsv(sampleId, e.name) && t.rows[k][0] == Text(e.name) && t.rows[k][1] == Text(Join(dir, e.name))
  {
    var t := Scan(true, dir, sampleId, entries);
    forall k | 0 <= k < |t.rows| ensures exists e | e in entries ::
      MatchesSampleCsv(sampleId, e.name) && t.rows[k][0] == Text(e.name) && t.rows[k][1] == Text(Join(dir, e.name))
    {
      ScanRowAt(dir, sampleId, entries, k);
    }
  }

  /** Every entry matching the sample's pattern is scanned. */
  lemma ScanHasEveryMatch(dir: string, sampleId: string, entries: seq<Entry>)
    ensures var t := Scan(true, dir, sampleId, entries);
      forall e | e in entries && MatchesSampleCsv(sampleId, e.name) :: exists k | 0 <= k < |t.rows| :: t.rows[k][0] == Text(e.name)
  {
    var t := Scan(true, dir, sampleId, entries);
    var listed := Listed(sampleId, entries);
    forall e | e in entries && MatchesSampleCsv(sampleId, e.name) ensures exists k | 0 <= k < |t.rows| :: t.rows[k][0] == Text(e.name) {
      var k :| 0 <= k < |listed| && listed[k] == e;
      ScanRowAt(dir, sampleId, entries, k);
    }
  }

  /** The scan lists the file names in ascending order. */
  lemma ScanIsSorted(dir: string, sampleId: string, entries: seq<Entry>)
    ensures var t := Scan(true, dir, sampleId, entries);
      forall i, j | 0 <= i < j < |t.rows| :: t.rows[i][0].Text? && t.rows[j][0].Text? && LexLe(t.rows[i][0].s, t.rows[j][0].s)
  {
    var t := Scan(true, dir, sampleId, entries);
    var listed := Listed(sampleId, entries);
    forall i, j | 0 <= i < j < |t.rows| ensures t.rows[i][0].Text? && t.rows[j][0].Text? && LexLe(t.rows[i][0].s, t.rows[j][0].s) {
      ScanRowAt(dir, sampleId, entries, i);
      ScanRowAt(dir, sampleId, entries, j);
      assert EntryName(listed[i]) == t.rows[i][0].s && EntryName(listed[j]) == t.rows[j][0].s;
    }
  }

  /** A file whose `stat` fails is still listed, with blank size and time. */
  lemma StatFailureLeavesBlanks(dir: string, sampleId: string, entries: seq<Entry>, k: nat)
    requires k < |Scan(true, dir, sampleId, entries).rows|
    requires Listed(sampleId, entries)[k].stat.None?
    ensures var t := Scan(true, dir, sampleId, entries);
      At(t, k, "size_kb") == Blank && At(t, k, "modified") == Blank
  {
    PickerColumnIndexes();
  }

  // ------------------------------------------------------------ filtering

  /**
   * `_apply_filter`: without a scan nothing changes; an empty query shows the
   * whole scan; otherwise the rows whose name or path contains the stripped,
   * lower-cased query, re-indexed from 0. Returns the table the view shows.
   */
  function ApplyFilter(scan: Option<Table>, showing: Option<Table>, text: string): (r: Option<Table>)
    requires scan.Some? ==> WellFormed(scan.value) && scan.value.columns == PickerColumns
    ensures scan.None? ==> r == showing
    ensures scan.Some? && Query(text) == "" ==> r == scan
    ensures scan.Some? ==> r.Some?
    ensures scan.Some? && Query(text) != "" ==>
      var (t, t') := (scan.value, r.value);
      && WellFormed(t') && t'.columns == PickerColumns
      && IsSubsequence(t'.rows, t.rows)
      && (forall row | row in t'.rows :: row in t.rows)
      && (forall k | 0 <= k < |t.rows| :: t.rows[k] in t'.rows <==>
           CellContains(At(t, k, "csv_name"), Query(text), AsStr) || CellContains(At(t, k, "csv_path"), Query(text), AsStr))
      && forall k | 0 <= k < |t.rows| ::
           multiset(t'.rows)[t.rows[k]] ==
             (if CellContains(At(t, k, "csv_name"), Query(text), AsStr) || CellContains(At(t, k, "csv_path"), Query(text), AsStr)
              then multiset(t.rows)[t.rows[k]] else 0)
  {
    if scan.None? then showing
    else if Query(text) == "" then scan
    else Some(Search(scan.value, "csv_name", "csv_path", Query(text), AsStr))
  }

  /** Filtering what a filter shows, with the same text, shows the same rows. */
  lemma FilterIdempotent(scan: Table, text: string)
    requires WellFormed(scan) && scan.columns == PickerColumns
    ensures var once := ApplyFilter(Some(scan), None, text).value;
      ApplyFilter(Some(once), None, text) == Some(once)
  {
    if Query(text) != "" {
      SearchIdempotent(scan, "csv_name", "csv_path", Query(text), AsStr);
    }
  }

  // -------------------------------------------------------------- opening

  /**
   * `_open_selected`: nothing without a model, with an empty one or without a
   * selection; otherwise the sample id and the displayed `csv_path` (column 1)
   * of the first selected row.
   */
  function OpenSelected(sampleId: string, showing: Option<Table>, sel: seq<nat>): (r: Option<(string, string)>)
    requires showing.Some? ==> (WellFormed(showing.value) && showing.value.columns == PickerColumns
      && forall i | 0 <= i < |sel| :: sel[i] < |showing.value.rows|)
    ensures r.Some? <==> showing.Some? && |showing.value.rows| > 0 && |sel| > 0
    ensures r.Some? ==> r.value == (sampleId, Display(At(showing.value, sel[0], "csv_path")))
  {
    if showing.None? || |showing.value.rows| == 0 || |sel| == 0 then None
    else
      var t := showing.value;
      // the index at column `columnCount() - 3` of the scan's four columns, and its sibling, are both column 1
      var path := Data(t, ModelIndex(sel[0], 1), DisplayRole);
      PickerColumnIndexes();
      Some((sampleId, path.text))
  }

  /** Whatever filter is applied, the path opened is the joined path of a listed file of that sample. */
  lemma OpenedFileIsListed(dir: string, sampleId: string, entries: seq<Entry>, text: string, sel: seq<nat>)
    requires var shown := ApplyFilter(Some(Scan(true, dir, sampleId, entries)), None, text).value;
      forall i | 0 <= i < |sel| :: sel[i] < |shown.rows|
    ensures var shown := ApplyFilter(Some(Scan(true, dir, sampleId, entries)), None, text);
      var r := OpenSelected(sampleId, shown, sel);
      r.Some? ==> exists e | e in entries :: MatchesSampleCsv(sampleId, e.name) && r.value == (sampleId, Join(dir, e.name))
  {
    var scan := Scan(true, dir, sampleId, entries);
    var shown := ApplyFilter(Some(scan), None, text).value;
    if |shown.rows| > 0 && |sel| > 0 {
      assert shown.rows[sel[0]] in scan.rows;
      OpenedRowIsListed(dir, sampleId, entries, shown, sel);
    }
  }

  lemma OpenedRowIsListed(dir: string, sampleId: string, entries: seq<Entry>, shown: Table, sel: seq<nat>)
    requires WellFormed(shown) && shown.columns == PickerColumns && |shown.rows| > 0 && |sel| > 0
    requires forall i | 0 <= i < |sel| :: sel[i] < |shown.rows|
    requires shown.rows[sel[0]] in Scan(true, dir, sampleId, entries).rows
    ensures OpenSelected(sampleId, Some(shown), sel).Some?
    ensures exists e | e in entries ::
      MatchesSampleCsv(sampleId, e.name) && OpenSelected(sampleId, Some(shown), sel).value == (sampleId, Join(dir, e.name))
  {
    var row := shown.rows[sel[0]];
    ScannedPathIsListed(dir, sampleId, entries, row);
    var e :| e in entries && MatchesSampleCsv(sampleId, e.name) && row[1] == Text(Join(dir, e.name));
    PickerColumnIndexes();
    assert At(shown, sel[0], "csv_path") == row[1];
  }

  lemma ScannedPathIsListed(dir: string, sampleId: string, entries: seq<Entry>, row: Row)
    requires row in Scan(true, dir, sampleId, entries).rows
    ensures exists e | e in entries :: MatchesSampleCsv(sampleId, e.name) && row[1] == Text(Join(dir, e.name))
  {
    var scan := Scan(true, dir, sampleId, entries);
    var k :| 0 <= k < |scan.rows| && scan.rows[k] == row;
    ScanRowAt(dir, sampleId, entries, k);
  }
}
