/**
 * The CSV reports page: the metadata view, the listing of label files, the
 * two searches, and what the two export actions copy and write.
 *
 * The file system is a parameter: a directory listing is the sequence of
 * entry names, and `existing` is the set of paths that exist.
 */
module CsvReports {
  import opened Options
  import opened Strings
  import opened Seqs
  import opened Sorting
  import opened Tables
  import opened Paths

  const LabelListColumns: seq<string> := ["sample_id", "file_name", "csv_path"]

  /** `_load_meta`: the metadata file normalised to the six view columns, empty when it cannot be read. */
  function LoadMeta(file: FileRead): (t: Table)
    requires ValidRead(file)
    ensures WellFormed(t) && t.columns == MetaViewColumns
    ensures !file.Parsed? ==> t.rows == []
    ensures file.Parsed? ==> |t.rows| == |file.table.rows| && forall k, c | 0 <= k < |t.rows| && c in MetaViewColumns ::
      At(t, k, c) == (if c in file.table.columns then At(file.table, k, c) else Blank)
  {
    LoadWithSchema(file, MetaViewColumns)
  }

  /** The `*.csv` entries of the labels directory in sorted order. */
  function Listed(names: seq<string>): (r: seq<string>)
    ensures Sorted(r)
    ensures forall n :: n in r <==> n in names && MatchesCsv(n)
    ensures |r| <= |names|
  {
    var csvs := Filter(names, MatchesCsv);
    var r := SortStrings(csvs);
    assert |r| == |csvs| by {
      assert |multiset(r)| == |multiset(csvs)|;
    }
    r
  }

  function ListingRow(dir: string, name: string): Row {
    [Text(Stem(name)), Text(name), Text(Join(dir, name))]
  }

  /** `_load_labels`: one row per listed file: its stem as `sample_id`, its name and its path. */
  function LoadLabels(dir: string, names: seq<string>): (t: Table)
    ensures WellFormed(t) && t.columns == LabelListColumns
    ensures |t.rows| == |Listed(names)|
    ensures forall k | 0 <= k < |t.rows| ::
      && At(t, k, "file_name") == Text(Listed(names)[k])
      && At(t, k, "sample_id") == Text(Stem(Listed(names)[k]))
      && At(t, k, "csv_path") == Text(Join(dir, Listed(names)[k]))
  {
    var listed := Listed(names);
    Table(LabelListColumns, seq(|listed|, k requires 0 <= k < |listed| => ListingRow(dir, listed[k])))
  }

  lemma ListingRowAt(dir: string, names: seq<string>, k: nat)
    requires k < |Listed(names)|
    ensures k < |LoadLabels(dir, names).rows| && LoadLabels(dir, names).rows[k] == ListingRow(dir, Listed(names)[k])
  {
  }

  /** The listing holds exactly the `*.csv` names of the directory, in its file-name column. */
  lemma LabelListingContents(dir: string, names: seq<string>)
    ensures var t := LoadLabels(dir, names);
      && (forall k | 0 <= k < |t.rows| :: t.rows[k][1].Text? && t.rows[k][1].s in names && MatchesCsv(t.rows[k][1].s))
      && (forall n | n in names && MatchesCsv(n) :: exists k | 0 <= k < |t.rows| :: t.rows[k][1] == Text(n))
  {
    var t := LoadLabels(dir, names);
    var listed := Listed(names);
    forall k | 0 <= k < |t.rows| ensures t.rows[k][1].Text? && t.rows[k][1].s in names && MatchesCsv(t.rows[k][1].s) {
      ListingRowAt(dir, names, k);
      assert listed[k] in listed;
    }
    forall n | n in names && MatchesCsv(n) ensures exists k | 0 <= k < |t.rows| :: t.rows[k][1] == Text(n) {
      var k :| 0 <= k < |listed| && listed[k] == n;
      ListingRowAt(dir, names, k);
      assert t.rows[k][1] == Text(n);
    }
  }

  /** The listing is in file-name order and each row's id is its file name without ".csv". */
  lemma LabelListingOrder(dir: string, names: seq<string>)
    ensures var t := LoadLabels(dir, names);
      && (forall k | 0 <= k < |t.rows| :: t.rows[k][1].Text?)
      && (forall i, j | 0 <= i < j < |t.rows| :: LexLe(t.rows[i][1].s, t.rows[j][1].s))
      && (forall k | 0 <= k < |t.rows| && |t.rows[k][1].s| > 4 :: t.rows[k][0] == Text(t.rows[k][1].s[..|t.rows[k][1].s| - 4]))
  {
    var t := LoadLabels(dir, names);
    var listed := Listed(names);
    forall k | 0 <= k < |t.rows| ensures t.rows[k][1] == Text(listed[k]) && t.rows[k][0] == Text(Stem(listed[k])) {
      ListingRowAt(dir, names, k);
    }
    forall k | 0 <= k < |t.rows| && |t.rows[k][1].s| > 4
      ensures t.rows[k][0] == Text(t.rows[k][1].s[..|t.rows[k][1].s| - 4])
    {
      assert listed[k] in listed;
      StemOfCsvName(listed[k]);
    }
  }

  // ---------------------------------------------------------------- search

  /**
   * `_apply_meta_search`: without a table nothing happens; an empty query
   * reloads the file; otherwise the current view keeps the rows whose
   * `sample_id` or `sample_name` contains the query.
   */
  function MetaSearch(current: Option<Table>, text: string, file: FileRead): (r: Option<Table>)
    requires ValidRead(file)
    requires current.Some? ==> WellFormed(current.value) && current.value.columns == MetaViewColumns
    ensures current.None? ==> r.None?
    ensures current.Some? ==> r.Some? && WellFormed(r.value) && r.value.columns == MetaViewColumns
    ensures current.Some? && Query(text) == "" ==> r == Some(LoadMeta(file))
    ensures current.Some? && Query(text) != "" ==>
      var (t, t') := (current.value, r.value);
      && IsSubsequence(t'.rows, t.rows)
      && (forall k | 0 <= k < |t.rows| :: t.rows[k] in t'.rows <==>
           CellContains(At(t, k, "sample_id"), Query(text), AsStr) || CellContains(At(t, k, "sample_name"), Query(text), AsStr))
      && forall k | 0 <= k < |t.rows| ::
           multiset(t'.rows)[t.rows[k]] ==
             (if CellContains(At(t, k, "sample_id"), Query(text), AsStr) || CellContains(At(t, k, "sample_name"), Query(text), AsStr)
              then multiset(t.rows)[t.rows[k]] else 0)
  {
    if current.None? then None
    else if Query(text) == "" then Some(LoadMeta(file))
    else Some(Search(current.value, "sample_id", "sample_name", Query(text), AsStr))
  }

  /** Running the same metadata search twice gives what running it once gives. */
  lemma MetaSearchIdempotent(current: Option<Table>, text: string, file: FileRead)
    requires ValidRead(file)
    requires current.Some? ==> WellFormed(current.value) && current.value.columns == MetaViewColumns
    ensures MetaSearch(MetaSearch(current, text, file), text, file) == MetaSearch(current, text, file)
  {
    if current.Some? && Query(text) != "" {
      SearchIdempotent(current.value, "sample_id", "sample_name", Query(text), AsStr);
    }
  }

  /**
   * `_apply_labels_search`: as the metadata search, over `sample_id` or
   * `file_name`, with an empty query re-listing the directory.
   */
  function LabelsSearch(current: Option<Table>, text: string, dir: string, names: seq<string>): (r: Option<Table>)
    requires current.Some? ==> WellFormed(current.value) && current.value.columns == LabelListColumns
    ensures current.None? ==> r.None?
    ensures current.Some? ==> r.Some? && WellFormed(r.value) && r.value.columns == LabelListColumns
    ensures current.Some? && Query(text) == "" ==> r == Some(LoadLabels(dir, names))
    ensures current.Some? && Query(text) != "" ==>
      var (t, t') := (current.value, r.value);
      && IsSubsequence(t'.rows, t.rows)
      && (forall k | 0 <= k < |t.rows| :: t.rows[k] in t'.rows <==>
           CellContains(At(t, k, "sample_id"), Query(text), AsStr) || CellContains(At(t, k, "file_name"), Query(text), AsStr))
      && forall k | 0 <= k < |t.rows| ::
           multiset(t'.rows)[t.rows[k]] ==
             (if CellContains(At(t, k, "sample_id"), Query(text), AsStr) || CellContains(At(t, k, "file_name"), Query(text), AsStr)
              then multiset(t.rows)[t.rows[k]] else 0)
  {
    if current.None? then None
    else if Query(text) == "" then Some(LoadLabels(dir, names))
    else Some(Search(current.value, "sample_id", "file_name", Query(text), AsStr))
  }

  lemma LabelsSearchIdempotent(current: Option<Table>, text: string, dir: string, names: seq<string>)
    requires current.Some? ==> WellFormed(current.value) && current.value.columns == LabelListColumns
    ensures LabelsSearch(LabelsSearch(current, text, dir, names), text, dir, names) == LabelsSearch(current, text, dir, names)
  {
    if current.Some? && Query(text) != "" {
      SearchIdempotent(current.value, "sample_id", "file_name", Query(text), AsStr);
    }
  }

  // ---------------------------------------------------------------- export

  /** One label file copied: where from, where to, and the sample id recorded for it. */
  datatype Copy = Copy(src: string, dst: string, sampleId: Cell)

  /** `str(v or "").strip()` for `row.get(c, "")`. */
  function FieldText(t: Table, k: nat, c: string): string
    requires WellFormed(t) && k < |t.rows|
  {
    Strip(StrOrEmpty(Get(t, k, c, Text(""))))
  }

  /** Whether a label path is copied: non-blank, existing, and with suffix ".csv" in any case. */
  predicate Copyable(p: string, existing: set<string>) {
    p != "" && p in existing && Lower(Suffix(FileName(p))) == ".csv"
  }

  /** `labels_out / src.name` with `labels_out = out_root / "label_csvs"`. */
  function Destination(outRoot: string, src: string): string {
    Join(Join(outRoot, "label_csvs"), FileName(src))
  }

  lemma DestinationKeepsName(outRoot: string, src: string)
    ensures FileName(Destination(outRoot, src)) == FileName(src)
  {
    FileNameOfJoin(Join(outRoot, "label_csvs"), FileName(src));
  }

  /** `labels_index.csv`: one row per copy, its sample id and destination. */
  function MappingTable(copies: seq<Copy>): (t: Table)
    ensures WellFormed(t) && t.columns == ["sample_id", "csv_path"] && |t.rows| == |copies|
    ensures forall i | 0 <= i < |copies| :: t.rows[i] == [copies[i].sampleId, Text(copies[i].dst)]
  {
    Table(["sample_id", "csv_path"], seq(|copies|, i requires 0 <= i < |copies| => [copies[i].sampleId, Text(copies[i].dst)]))
  }

  /** What an export writes: `metadata/index.csv`, the copies, and `labels_index.csv` when written. */
  datatype Export =
    | NotExported
    | Exported(index: Table, copies: seq<Copy>, mapping: Option<Table>)

  function MetaCopyAt(picked: Table, k: nat, outRoot: string, existing: set<string>): Option<Copy>
    requires WellFormed(picked) && k < |picked.rows|
  {
    var p := FieldText(picked, k, "labels_csv");
    if Copyable(p, existing) then Some(Copy(p, Destination(outRoot, p), Get(picked, k, "sample_id", Text(""))))
    else None
  }

  /** The copies of the metadata export, in the order of the picked rows. */
  function MetaCopies(picked: Table, outRoot: string, existing: set<string>): (copies: seq<Copy>)
    requires WellFormed(picked)
    ensures forall c :: c in copies <==> exists k | 0 <= k < |picked.rows| :: MetaCopyAt(picked, k, outRoot, existing) == Some(c)
  {
    var opts := seq(|picked.rows|, k requires 0 <= k < |picked.rows| => MetaCopyAt(picked, k, outRoot, existing));
    MetaCopiesMembership(picked, outRoot, existing, opts);
    Somes(opts)
  }

  /**
   * The copies follow the picked rows: the `i`-th copy comes from picked row
   * `ks[i]`, the rows are increasing, and every row that yields a copy is
   * among them, so each such row is copied exactly once and in order.
   */
  lemma MetaCopiesInOrder(picked: Table, outRoot: string, existing: set<string>) returns (ks: seq<nat>)
    requires WellFormed(picked)
    ensures var copies := MetaCopies(picked, outRoot, existing);
      && |ks| == |copies|
      && (forall i | 0 <= i < |ks| :: ks[i] < |picked.rows| && MetaCopyAt(picked, ks[i], outRoot, existing) == Some(copies[i]))
      && (forall i, j | 0 <= i < j < |ks| :: ks[i] < ks[j])
      && (forall k | 0 <= k < |picked.rows| && MetaCopyAt(picked, k, outRoot, existing).Some? :: AmongPositions(ks, k))
  {
    var opts := seq(|picked.rows|, k requires 0 <= k < |picked.rows| => MetaCopyAt(picked, k, outRoot, existing));
    assert MetaCopies(picked, outRoot, existing) == Somes(opts);
    ks := SomesPositions(opts);
    var copies := Somes(opts);
    forall i | 0 <= i < |ks| ensures ks[i] < |picked.rows| && MetaCopyAt(picked, ks[i], outRoot, existing) == Some(copies[i]) {
      assert opts[ks[i]] == Some(copies[i]);
    }
    forall k | 0 <= k < |picked.rows| && MetaCopyAt(picked, k, outRoot, existing).Some? ensures AmongPositions(ks, k) {
      assert opts[k].Some?;
    }
  }

  lemma MetaCopiesMembership(picked: Table, outRoot: string, existing: set<string>, opts: seq<Option<Copy>>)
    requires WellFormed(picked) && |opts| == |picked.rows|
    requires forall k | 0 <= k < |opts| :: opts[k] == MetaCopyAt(picked, k, outRoot, existing)
    ensures forall c :: c in Somes(opts) <==> exists k | 0 <= k < |picked.rows| :: MetaCopyAt(picked, k, outRoot, existing) == Some(c)
  {
    SomesMembers(opts);
    forall c ensures c in Somes(opts) <==> exists k | 0 <= k < |picked.rows| :: MetaCopyAt(picked, k, outRoot, existing) == Some(c) {
      if c in Somes(opts) {
        assert Some(c) in opts;
        var k :| 0 <= k < |opts| && opts[k] == Some(c);
        assert MetaCopyAt(picked, k, outRoot, existing) == Some(c);
      }
      if exists k | 0 <= k < |picked.rows| :: MetaCopyAt(picked, k, outRoot, existing) == Some(c) {
        var k :| 0 <= k < |picked.rows| && MetaCopyAt(picked, k, outRoot, existing) == Some(c);
        assert opts[k] == Some(c);
      }
    }
  }

  /**
   * `_export_meta_selected`: with a table, a selection and an output
   * directory, writes the selected rows as the index, copies the label file
   * of each selected row that has a copyable one, in selection order, and
   * writes the mapping only when something was copied.
   */
  function ExportMetaSelected(view: Option<Table>, selected: seq<nat>, outRoot: string, existing: set<string>): (r: Export)
    requires view.Some? ==> WellFormed(view.value) && forall i | 0 <= i < |selected| :: selected[i] < |view.value.rows|
    ensures view.None? || |selected| == 0 || outRoot == "" ==> r == NotExported
    ensures view.Some? && |selected| > 0 && outRoot != "" ==> r.Exported?
    ensures r.Exported? ==>
      && r.index == Pick(view.value, selected)
      && r.copies == MetaCopies(r.index, outRoot, existing)
      && (r.mapping.Some? <==> |r.copies| > 0)
      && (r.mapping.Some? ==> r.mapping.value == MappingTable(r.copies))
  {
    if view.None? || |selected| == 0 || outRoot == "" then NotExported
    else
      var picked := Pick(view.value, selected);
      var copies := MetaCopies(picked, outRoot, existing);
      Exported(picked, copies, if |copies| > 0 then Some(MappingTable(copies)) else None)
  }

  /** A picked row reads like the view row it was picked from. */
  lemma PickedFields(view: Table, selected: seq<nat>, i: nat, c: string)
    requires WellFormed(view) && forall i | 0 <= i < |selected| :: selected[i] < |view.rows|
    requires i < |selected|
    ensures FieldText(Pick(view, selected), i, c) == FieldText(view, selected[i], c)
    ensures Get(Pick(view, selected), i, c, Text("")) == Get(view, selected[i], c, Text(""))
  {
    if c in view.columns {
      AtPicked(view, selected, i, c);
    }
  }

  /** A selected row's label file is copied exactly when its path is copyable. */
  lemma MetaExportCopies(view: Table, selected: seq<nat>, outRoot: string, existing: set<string>, i: nat)
    requires WellFormed(view) && forall i | 0 <= i < |selected| :: selected[i] < |view.rows|
    requires i < |selected| && outRoot != ""
    ensures var r := ExportMetaSelected(Some(view), selected, outRoot, existing);
      var p := FieldText(view, selected[i], "labels_csv");
      && r.Exported?
      && (Copyable(p, existing) ==> Copy(p, Destination(outRoot, p), Get(view, selected[i], "sample_id", Text(""))) in r.copies)
      && (!Copyable(p, existing) ==> forall c | c in r.copies :: c.src != p)
  {
    var picked := Pick(view, selected);
    PickedFields(view, selected, i, "labels_csv");
    PickedFields(view, selected, i, "sample_id");
    PickedRowCopied(picked, outRoot, existing, i);
  }

  lemma PickedRowCopied(picked: Table, outRoot: string, existing: set<string>, i: nat)
    requires WellFormed(picked) && i < |picked.rows|
    ensures var p := FieldText(picked, i, "labels_csv");
      var copies := MetaCopies(picked, outRoot, existing);
      && (Copyable(p, existing) ==> Copy(p, Destination(outRoot, p), Get(picked, i, "sample_id", Text(""))) in copies)
      && (!Copyable(p, existing) ==> forall c | c in copies :: c.src != p)
  {
    var p := FieldText(picked, i, "labels_csv");
    var copies := MetaCopies(picked, outRoot, existing);
    if Copyable(p, existing) {
      var c := Copy(p, Destination(outRoot, p), Get(picked, i, "sample_id", Text("")));
      assert MetaCopyAt(picked, i, outRoot, existing) == Some(c);
    } else {
      CopiesAreCopyable(picked, outRoot, existing);
    }
  }

  /** Every copy comes from a copyable path and lands in `label_csvs` under its own name. */
  lemma CopiesAreCopyable(picked: Table, outRoot: string, existing: set<string>)
    requires WellFormed(picked)
    ensures forall c | c in MetaCopies(picked, outRoot, existing) :: Copyable(c.src, existing) && c.dst == Destination(outRoot, c.src)
  {
    forall c | c in MetaCopies(picked, outRoot, existing) ensures Copyable(c.src, existing) && c.dst == Destination(outRoot, c.src) {
      var k :| 0 <= k < |picked.rows| && MetaCopyAt(picked, k, outRoot, existing) == Some(c);
    }
  }

  /** The label-export copy of picked row `k`, with the stripped id it records. */
  function LabelCopyAt(picked: Table, k: nat, outRoot: string, existing: set<string>): Option<Copy>
    requires WellFormed(picked) && k < |picked.rows|
  {
    var p := FieldText(picked, k, "csv_path");
    if Copyable(p, existing) then Some(Copy(p, Destination(outRoot, p), Text(FieldText(picked, k, "sample_id"))))
    else None
  }

  /** The copies of the label export, in the order of the picked rows. */
  function LabelCopies(picked: Table, outRoot: string, existing: set<string>): (copies: seq<Copy>)
    requires WellFormed(picked)
    ensures forall c :: c in copies <==> exists k | 0 <= k < |picked.rows| :: LabelCopyAt(picked, k, outRoot, existing) == Some(c)
    ensures |copies| == 0 <==> forall k | 0 <= k < |picked.rows| :: LabelCopyAt(picked, k, outRoot, existing).None?
  {
    var opts := seq(|picked.rows|, k requires 0 <= k < |picked.rows| => LabelCopyAt(picked, k, outRoot, existing));
    LabelCopiesMembership(picked, outRoot, existing, opts);
    Somes(opts)
  }

  /** The label export's copies follow the picked rows in the same way. */
  lemma LabelCopiesInOrder(picked: Table, outRoot: string, existing: set<string>) returns (ks: seq<nat>)
    requires WellFormed(picked)
    ensures var copies := LabelCopies(picked, outRoot, existing);
      && |ks| == |copies|
      && (forall i | 0 <= i < |ks| :: ks[i] < |picked.rows| && LabelCopyAt(picked, ks[i], outRoot, existing) == Some(copies[i]))
      && (forall i, j | 0 <= i < j < |ks| :: ks[i] < ks[j])
      && (forall k | 0 <= k < |picked.rows| && LabelCopyAt(picked, k, outRoot, existing).Some? :: AmongPositions(ks, k))
  {
    var opts := seq(|picked.rows|, k requires 0 <= k < |picked.rows| => LabelCopyAt(picked, k, outRoot, existing));
    assert LabelCopies(picked, outRoot, existing) == Somes(opts);
    ks := SomesPositions(opts);
    var copies := Somes(opts);
    forall i | 0 <= i < |ks| ensures ks[i] < |picked.rows| && LabelCopyAt(picked, ks[i], outRoot, existing) == Some(copies[i]) {
      assert opts[ks[i]] == Some(copies[i]);
    }
    forall k | 0 <= k < |picked.rows| && LabelCopyAt(picked, k, outRoot, existing).Some? ensures AmongPositions(ks, k) {
      assert opts[k].Some?;
    }
  }

  lemma LabelCopiesMembership(picked: Table, outRoot: string, existing: set<string>, opts: seq<Option<Copy>>)
    requires WellFormed(picked) && |opts| == |picked.rows|
    requires forall k | 0 <= k < |opts| :: opts[k] == LabelCopyAt(picked, k, outRoot, existing)
    ensures forall c :: c in Somes(opts) <==> exists k | 0 <= k < |picked.rows| :: LabelCopyAt(picked, k, outRoot, existing) == Some(c)
  {
    SomesMembers(opts);
    forall c ensures c in Somes(opts) <==> exists k | 0 <= k < |picked.rows| :: LabelCopyAt(picked, k, outRoot, existing) == Some(c) {
      if c in Somes(opts) {
        assert Some(c) in opts;
        var k :| 0 <= k < |opts| && opts[k] == Some(c);
        assert LabelCopyAt(picked, k, outRoot, existing) == Some(c);
      }
      if exists k | 0 <= k < |picked.rows| :: LabelCopyAt(picked, k, outRoot, existing) == Some(c) {
        var k :| 0 <= k < |picked.rows| && LabelCopyAt(picked, k, outRoot, existing) == Some(c);
        assert opts[k] == Some(c);
      }
    }
  }

  /** `picked_sample_ids`: the non-blank ids recorded by the copies. */
  function CopiedIds(copies: seq<Copy>): set<string> {
    set c | c in copies && c.sampleId.Text? && c.sampleId.s != "" :: c.sampleId.s
  }

  /** `picked_csv_paths`: the source paths of the copies. */
  function CopiedPaths(copies: seq<Copy>): set<string> {
    set c | c in copies :: c.src
  }

  /**
   * The metadata the label export reads: the file plus any missing view
   * column; an unreadable file gives an empty frame with the view columns,
   * to which nothing needs adding (`ViewFrameUnchanged`).
   */
  function ExportMetaBase(meta: FileRead): (t: Table)
    requires ValidRead(meta)
    ensures WellFormed(t) && forall c | c in MetaViewColumns :: c in t.columns
    ensures "sample_id" in t.columns && "labels_csv" in t.columns
    ensures meta.Parsed? ==> (|t.rows| == |meta.table.rows| && |meta.table.columns| <= |t.columns|
      && t.columns[..|meta.table.columns|] == meta.table.columns)
  {
    MetaViewColumnsDistinct();
    if meta.Parsed? then AddMissingColumns(meta.table, MetaViewColumns) else Table(MetaViewColumns, [])
  }

  /** The empty frame built for an unreadable file already has every view column, so nothing is added to it. */
  lemma ViewFrameUnchanged(t0: Table)
    requires t0 == Table(MetaViewColumns, [])
    ensures AddMissingColumns(t0, MetaViewColumns) == t0
  {
    MetaViewColumnsDistinct();
    AllPresentUnchanged(t0, MetaViewColumns);
  }

  /** Whether a metadata row goes with the copies: its id is a copied id, or its link is a copied path. */
  predicate GoesWith(ids: set<string>, paths: set<string>, cols: seq<string>, row: Row) {
    |row| == |cols| && "sample_id" in cols && "labels_csv" in cols &&
    (StrOf(row[ColumnIndex(cols, "sample_id")]) in ids || StrOf(row[ColumnIndex(cols, "labels_csv")]) in paths)
  }

  function GoesWithTest(ids: set<string>, paths: set<string>, cols: seq<string>): Row -> bool {
    (row: Row) => GoesWith(ids, paths, cols, row)
  }

  /** Metadata row `k` records the non-blank id `sid`, or links the file `path`. */
  predicate Linked(base: Table, k: nat, sid: string, path: string)
    requires WellFormed(base) && "sample_id" in base.columns && "labels_csv" in base.columns
  {
    k < |base.rows| &&
    ((sid != "" && StrOf(At(base, k, "sample_id")) == sid) || StrOf(At(base, k, "labels_csv")) == path)
  }

  /** `meta_df[mask_sid | mask_path]`. */
  function MetaSubset(base: Table, ids: set<string>, paths: set<string>): (r: Table)
    requires WellFormed(base) && "sample_id" in base.columns && "labels_csv" in base.columns
    ensures WellFormed(r) && r.columns == base.columns
    ensures IsSubsequence(r.rows, base.rows)
    ensures forall k | 0 <= k < |base.rows| :: base.rows[k] in r.rows <==>
      StrOf(At(base, k, "sample_id")) in ids || StrOf(At(base, k, "labels_csv")) in paths
    ensures forall k | 0 <= k < |base.rows| ::
      multiset(r.rows)[base.rows[k]] ==
        (if StrOf(At(base, k, "sample_id")) in ids || StrOf(At(base, k, "labels_csv")) in paths
         then multiset(base.rows)[base.rows[k]] else 0)
    ensures ids == {} && paths == {} ==> r.rows == []
  {
    var rows := Filter(base.rows, GoesWithTest(ids, paths, base.columns));
    FilterIsSubsequence(base.rows, GoesWithTest(ids, paths, base.columns));
    FilterCounts(base.rows, GoesWithTest(ids, paths, base.columns));
    assert forall k | 0 <= k < |rows| :: rows[k] in base.rows;
    assert |rows| > 0 ==> rows[0] in rows && GoesWith(ids, paths, base.columns, rows[0]);
    Table(base.columns, rows)
  }

  /**
   * `_export_labels_selected`: copies the selected label files that are
   * copyable, writes the mapping only when something was copied, and always
   * writes as the index the metadata rows that go with the copies.
   */
  function ExportLabelsSelected(view: Option<Table>, selected: seq<nat>, outRoot: string, existing: set<string>, meta: FileRead): (r: Export)
    requires ValidRead(meta)
    requires view.Some? ==> WellFormed(view.value) && forall i | 0 <= i < |selected| :: selected[i] < |view.value.rows|
    ensures view.None? || |selected| == 0 || outRoot == "" ==> r == NotExported
    ensures view.Some? && |selected| > 0 && outRoot != "" ==> r.Exported?
    ensures r.Exported? ==>
      && r.copies == LabelCopies(Pick(view.value, selected), outRoot, existing)
      && (r.mapping.Some? <==> |r.copies| > 0)
      && (r.mapping.Some? ==> r.mapping.value == MappingTable(r.copies))
      && r.index == MetaSubset(ExportMetaBase(meta), CopiedIds(r.copies), CopiedPaths(r.copies))
  {
    if view.None? || |selected| == 0 || outRoot == "" then NotExported
    else
      var copies := LabelCopies(Pick(view.value, selected), outRoot, existing);
      var index := MetaSubset(ExportMetaBase(meta), CopiedIds(copies), CopiedPaths(copies));
      Exported(index, copies, if |copies| > 0 then Some(MappingTable(copies)) else None)
  }

  /** With nothing copied the metadata index is still written, and it is empty. */
  lemma NothingCopiedEmptyIndex(view: Table, selected: seq<nat>, outRoot: string, existing: set<string>, meta: FileRead)
    requires ValidRead(meta) && WellFormed(view) && forall i | 0 <= i < |selected| :: selected[i] < |view.rows|
    requires |selected| > 0 && outRoot != ""
    requires forall i | 0 <= i < |selected| :: !Copyable(FieldText(view, selected[i], "csv_path"), existing)
    ensures var r := ExportLabelsSelected(Some(view), selected, outRoot, existing, meta);
      r.Exported? && r.copies == [] && r.mapping.None? && r.index.rows == []
  {
    var picked := Pick(view, selected);
    forall i | 0 <= i < |selected| ensures LabelCopyAt(picked, i, outRoot, existing).None? {
      PickedFields(view, selected, i, "csv_path");
    }
    var copies := LabelCopies(picked, outRoot, existing);
    assert copies == [];
    assert CopiedIds(copies) == {} && CopiedPaths(copies) == {};
  }

  /** Every stored row of a copied sample, and every row linking a copied file, is exported with it. */
  lemma CopiedSampleMetadataExported(view: Table, selected: seq<nat>, outRoot: string, existing: set<string>, meta: FileRead, i: nat, k: nat)
    requires ValidRead(meta) && WellFormed(view) && forall i | 0 <= i < |selected| :: selected[i] < |view.rows|
    requires outRoot != "" && i < |selected| && Copyable(FieldText(view, selected[i], "csv_path"), existing)
    requires k < |ExportMetaBase(meta).rows|
    requires Linked(ExportMetaBase(meta), k, FieldText(view, selected[i], "sample_id"), FieldText(view, selected[i], "csv_path"))
    ensures var r := ExportLabelsSelected(Some(view), selected, outRoot, existing, meta);
      r.Exported? && ExportMetaBase(meta).rows[k] in r.index.rows
  {
    var copies := LabelCopies(Pick(view, selected), outRoot, existing);
    LabelCopyRecorded(view, selected, outRoot, existing, i);
    var base := ExportMetaBase(meta);
    MetaSubsetKeeps(base, CopiedIds(copies), CopiedPaths(copies), k);
  }

  lemma MetaSubsetKeeps(base: Table, ids: set<string>, paths: set<string>, k: nat)
    requires WellFormed(base) && "sample_id" in base.columns && "labels_csv" in base.columns && k < |base.rows|
    requires StrOf(At(base, k, "sample_id")) in ids || StrOf(At(base, k, "labels_csv")) in paths
    ensures base.rows[k] in MetaSubset(base, ids, paths).rows
  {
  }

  /** A copyable selected file is among the copies, with its path and its non-blank id recorded. */
  lemma LabelCopyRecorded(view: Table, selected: seq<nat>, outRoot: string, existing: set<string>, i: nat)
    requires WellFormed(view) && forall i | 0 <= i < |selected| :: selected[i] < |view.rows|
    requires i < |selected| && Copyable(FieldText(view, selected[i], "csv_path"), existing)
    ensures var copies := LabelCopies(Pick(view, selected), outRoot, existing);
      && FieldText(view, selected[i], "csv_path") in CopiedPaths(copies)
      && (FieldText(view, selected[i], "sample_id") != "" ==> FieldText(view, selected[i], "sample_id") in CopiedIds(copies))
  {
    var picked := Pick(view, selected);
    PickedFields(view, selected, i, "csv_path");
    PickedFields(view, selected, i, "sample_id");
    var p := FieldText(view, selected[i], "csv_path");
    var c := Copy(p, Destination(outRoot, p), Text(FieldText(view, selected[i], "sample_id")));
    assert LabelCopyAt(picked, i, outRoot, existing) == Some(c);
    var copies := LabelCopies(picked, outRoot, existing);
    assert c in copies;
  }
}
