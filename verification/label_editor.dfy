/**
 * The label editor's table logic: loading a sample's label table, marking
 * start and end positions, turning the marks into a label row, removing
 * rows, writing the label file's path back into the metadata table, reading
 * the label classes, and the small arithmetic of the time readout, the seek
 * slider and click-to-seek on the plots.
 *
 * Playback positions are integer milliseconds. The position readout shows
 * them as seconds with three decimals, and the marks copy that text.
 */
module LabelEditor {
  import opened Options
  import opened Strings
  import opened Seqs
  import opened Sorting
  import opened Tables
  import TableModel

  const LabelColumns: seq<string> := ["sample_id", "audio_path", "start_s", "end_s", "label_class", "notes", "created_at"]

  // ------------------------------------------------------------- seconds text

  function Digits3(k: nat): (r: string)
    requires k < 1000
    ensures |r| == 3 && AllDigits(r)
  {
    [DigitChar(k / 100), DigitChar(k / 10 % 10), DigitChar(k % 10)]
  }

  /** `f"{ms / 1000:.3f}"` for a non-negative millisecond count. */
  function FormatSeconds(ms: nat): string {
    NatToString(ms / 1000) + "." + Digits3(ms % 1000)
  }

  /** Reads "<digits>.<three digits>" back as milliseconds. */
  function ParseSeconds(s: string): Option<nat> {
    if |s| >= 5 && s[|s| - 4] == '.' && AllDigits(s[|s| - 3..]) then
      match ParseNat(s[..|s| - 4])
      case Some(whole) =>
        Some(whole * 1000 + DigitValue(s[|s| - 3]) * 100 + DigitValue(s[|s| - 2]) * 10 + DigitValue(s[|s| - 1]))
      case None => None
    else None
  }

  /** The seconds text of a position reads back as the same position. */
  lemma ParseFormatSeconds(ms: nat)
    ensures ParseSeconds(FormatSeconds(ms)) == Some(ms)
  {
    var w := NatToString(ms / 1000);
    var s := FormatSeconds(ms);
    assert s[..|s| - 4] == w;
    assert s[|s| - 3..] == Digits3(ms % 1000);
    ParseNatOfNatToString(ms / 1000);
  }

  /** Different positions never print alike. */
  lemma FormatSecondsInjective(a: nat, b: nat)
    requires FormatSeconds(a) == FormatSeconds(b)
    ensures a == b
  {
    ParseFormatSeconds(a);
    ParseFormatSeconds(b);
  }

  // ------------------------------------------------------------------ marks

  /** A start or end mark: empty after stripping, a position, or text that does not read as a number. */
  datatype Mark = NoMark | Millis(ms: nat) | Unparseable

  /** How a mark field's text reads. The fields are read-only and only ever hold "" or the position text. */
  function MarkOfText(text: string): Mark {
    var t := Strip(text);
    if t == "" then NoMark
    else match ParseSeconds(t)
      case Some(ms) => Millis(ms)
      case None => Unparseable
  }

  lemma MarkOfPositionText(ms: nat)
    ensures MarkOfText(FormatSeconds(ms)) == Millis(ms)
    ensures MarkOfText("") == NoMark
  {
    var s := FormatSeconds(ms);
    forall i | 0 <= i < |s| ensures !IsSpace(s[i]) {
      assert s[i] == '.' || IsDigit(s[i]);
    }
    StripNoSpace(s);
    ParseFormatSeconds(ms);
  }

  /** The page's state: bound sample, label file, attached audio, the label table, the player position and the marks. */
  datatype Editor = Editor(
    sampleId: Option<string>,
    labelsPath: Option<string>,
    audioPath: Option<string>,
    model: Option<Table>,
    position: nat,
    start: Mark,
    end: Mark)

  predicate Valid(e: Editor) {
    e.model.Some? ==> WellFormed(e.model.value)
  }

  /** `self.model and self.sample_id`: a table is loaded and the sample id is a non-empty string. */
  predicate Bound(e: Editor) {
    e.model.Some? && e.sampleId.Some? && e.sampleId.value != ""
  }

  /** `_on_position_changed`: the player reports a new position. */
  function OnPositionChanged(e: Editor, ms: nat): (r: Editor)
    ensures r.position == ms && r.start == e.start && r.end == e.end && r.model == e.model
    ensures r.sampleId == e.sampleId && r.labelsPath == e.labelsPath && r.audioPath == e.audioPath
  {
    e.(position := ms)
  }

  /** `_mark_start`: the start field takes the position text. */
  function MarkStart(e: Editor): (r: Editor)
    ensures r.start == MarkOfText(FormatSeconds(e.position)) && r.end == e.end && r.model == e.model
    ensures r.position == e.position && r.sampleId == e.sampleId && r.labelsPath == e.labelsPath && r.audioPath == e.audioPath
  {
    MarkOfPositionText(e.position);
    e.(start := Millis(e.position))
  }

  /** `_mark_end`: the end field takes the position text. */
  function MarkEnd(e: Editor): (r: Editor)
    ensures r.end == MarkOfText(FormatSeconds(e.position)) && r.start == e.start && r.model == e.model
    ensures r.position == e.position && r.sampleId == e.sampleId && r.labelsPath == e.labelsPath && r.audioPath == e.audioPath
  {
    MarkOfPositionText(e.position);
    e.(end := Millis(e.position))
  }

  /** The warning `_add_row_from_marks` shows, if any. */
  datatype Notice = Quiet | MissingMarks | InvalidMarks

  /** The cells of a label row built from ordered marks. */
  function LabelRow(sampleId: string, audio: Option<string>, lo: nat, hi: nat, cls: string, createdAt: string): map<string, Cell> {
    LabelCells(sampleId, audio.GetOr(""), FormatSeconds(lo), FormatSeconds(hi), Strip(cls), createdAt)
  }

  function LabelCells(sampleId: string, audio: string, start: string, end: string, cls: string, createdAt: string): map<string, Cell> {
    map[
      "created_at" := Text(createdAt),
      "notes" := Text(""),
      "audio_path" := Text(audio),
      "label_class" := Text(cls),
      "sample_id" := Text(sampleId),
      "start_s" := Text(start),
      "end_s" := Text(end)]
  }

  lemma LabelCellsEntries(sampleId: string, audio: string, start: string, end: string, cls: string, createdAt: string)
    ensures var row := LabelCells(sampleId, audio, start, end, cls, createdAt);
      && "start_s" in row && row["start_s"] == Text(start)
      && "end_s" in row && row["end_s"] == Text(end)
      && "sample_id" in row && row["sample_id"] == Text(sampleId)
      && "label_class" in row && row["label_class"] == Text(cls)
      && "audio_path" in row && row["audio_path"] == Text(audio)
      && "notes" in row && row["notes"] == Text("")
  {
  }

  /**
   * `_add_row_from_marks`: appends a label row from the marks (swapped when
   * the end precedes the start), the selected class and `createdAt`, then
   * clears the marks. Without a table or sample id nothing happens; with a
   * mark missing or not numeric a warning is shown and nothing changes.
   */
  function AddRowFromMarks(e: Editor, classText: string, createdAt: string): (r: (Editor, Notice))
    requires Valid(e)
    ensures Valid(r.0)
    ensures !Bound(e) ==> r == (e, Quiet)
    ensures Bound(e) && (e.start.NoMark? || e.end.NoMark?) ==> r == (e, MissingMarks)
    ensures Bound(e) && !e.start.NoMark? && !e.end.NoMark? && (e.start.Unparseable? || e.end.Unparseable?) ==>
      r == (e, InvalidMarks)
    ensures Bound(e) && e.start.Millis? && e.end.Millis? ==>
      && r.1 == Quiet
      && r.0.model.Some?
      && r.0 == e.(model := r.0.model, start := NoMark, end := NoMark)
      && Appended(e.model.value, r.0.model.value,
           LabelRow(e.sampleId.value, e.audioPath, Min(e.start.ms, e.end.ms), Max(e.start.ms, e.end.ms), classText, createdAt))
  {
    if !Bound(e) then (e, Quiet)
    else if e.start.NoMark? || e.end.NoMark? then (e, MissingMarks)
    else if e.start.Unparseable? || e.end.Unparseable? then (e, InvalidMarks)
    else
      var (s, t) := (e.start.ms, e.end.ms);
      var (lo, hi) := if t < s then (t, s) else (s, t);
      var row := LabelRow(e.sampleId.value, e.audioPath, lo, hi, classText, createdAt);
      var m' := TableModel.InsertEmptyRow(e.model.value, Some(row));
      InsertedRowCells(e.model.value, row);
      (e.(model := Some(m'), start := NoMark, end := NoMark), Quiet)
  }

  function Min(a: nat, b: nat): nat { if b < a then b else a }
  function Max(a: nat, b: nat): nat { if b < a then a else b }

  /** `t'` is `t` with one more row whose cells come from `d`, NaN where `d` has no entry. */
  ghost predicate Appended(t: Table, t': Table, d: map<string, Cell>) {
    && WellFormed(t) && WellFormed(t')
    && t'.columns == t.columns && |t'.rows| == |t.rows| + 1 && t'.rows[..|t.rows|] == t.rows
    && forall c | c in t.columns :: At(t', |t.rows|, c) == (if c in d then d[c] else Missing)
  }

  /** A row without integer cells goes in as it is: only integers are widened to a column's dtype. */
  lemma InsertedRowCells(t: Table, d: map<string, Cell>)
    requires WellFormed(t)
    requires forall c | c in d :: !d[c].Int?
    ensures Appended(t, TableModel.InsertEmptyRow(t, Some(d)), d)
  {
    forall c | c in t.columns
      ensures At(TableModel.InsertEmptyRow(t, Some(d)), |t.rows|, c) == (if c in d then d[c] else Missing)
    {
      TableModel.AtInserted(t, d, c);
    }
  }

  lemma LabelRowEntries(sid: string, audio: Option<string>, lo: nat, hi: nat, cls: string, createdAt: string)
    ensures var row := LabelRow(sid, audio, lo, hi, cls, createdAt);
      && "start_s" in row && row["start_s"] == Text(FormatSeconds(lo))
      && "end_s" in row && row["end_s"] == Text(FormatSeconds(hi))
      && "sample_id" in row && row["sample_id"] == Text(sid)
      && "label_class" in row && row["label_class"] == Text(Strip(cls))
      && "audio_path" in row && row["audio_path"] == Text(if audio.Some? then audio.value else "")
      && "notes" in row && row["notes"] == Text("")
  {
    LabelCellsEntries(sid, audio.GetOr(""), FormatSeconds(lo), FormatSeconds(hi), Strip(cls), createdAt);
  }

  /** On a label table, the new row's start and end read back as the two marks, earlier first. */
  lemma AddedRowIsOrdered(e: Editor, classText: string, createdAt: string)
    requires Valid(e) && Bound(e) && e.start.Millis? && e.end.Millis?
    requires e.model.value.columns == LabelColumns
    ensures var m' := AddRowFromMarks(e, classText, createdAt).0.model.value;
      var n := |e.model.value.rows|;
      && WellFormed(m') && n < |m'.rows| && m'.columns == LabelColumns
      && At(m', n, "start_s").Text? && At(m', n, "end_s").Text?
      && ParseSeconds(At(m', n, "start_s").s) == Some(Min(e.start.ms, e.end.ms))
      && ParseSeconds(At(m', n, "end_s").s) == Some(Max(e.start.ms, e.end.ms))
      && Min(e.start.ms, e.end.ms) <= Max(e.start.ms, e.end.ms)
      && At(m', n, "sample_id") == Text(e.sampleId.value)
      && At(m', n, "label_class") == Text(Strip(classText))
  {
    var m' := AddRowFromMarks(e, classText, createdAt).0.model.value;
    LabelRowReadsBack(e.model.value, m', e.sampleId.value, e.audioPath,
      Min(e.start.ms, e.end.ms), Max(e.start.ms, e.end.ms), classText, createdAt);
  }

  lemma LabelRowReadsBack(m: Table, m': Table, sid: string, audio: Option<string>, lo: nat, hi: nat, cls: string, createdAt: string)
    requires m.columns == LabelColumns
    requires Appended(m, m', LabelRow(sid, audio, lo, hi, cls, createdAt))
    ensures var n := |m.rows|;
      && At(m', n, "start_s") == Text(FormatSeconds(lo))
      && At(m', n, "end_s") == Text(FormatSeconds(hi))
      && ParseSeconds(FormatSeconds(lo)) == Some(lo)
      && ParseSeconds(FormatSeconds(hi)) == Some(hi)
      && At(m', n, "sample_id") == Text(sid)
      && At(m', n, "label_class") == Text(Strip(cls))
      && At(m', n, "audio_path") == Text(if audio.Some? then audio.value else "")
      && At(m', n, "notes") == Text("")
      && m'.rows[..n] == m.rows
  {
    var row := LabelRow(sid, audio, lo, hi, cls, createdAt);
    LabelRowEntries(sid, audio, lo, hi, cls, createdAt);
    AppendedLabelCell(m, m', row, 0);
    AppendedLabelCell(m, m', row, 1);
    AppendedLabelCell(m, m', row, 2);
    AppendedLabelCell(m, m', row, 3);
    AppendedLabelCell(m, m', row, 4);
    AppendedLabelCell(m, m', row, 5);
    ParseFormatSeconds(lo);
    ParseFormatSeconds(hi);
  }

  /** The i-th label column of an appended row reads the row's entry for it. */
  lemma AppendedLabelCell(m: Table, m': Table, d: map<string, Cell>, i: nat)
    requires m.columns == LabelColumns && Appended(m, m', d) && i < |LabelColumns|
    ensures At(m', |m.rows|, LabelColumns[i]) == (if LabelColumns[i] in d then d[LabelColumns[i]] else Missing)
  {
  }

  /** `_delete_rows`: removes the selected rows from the table, if there is a table and a selection. */
  function DeleteRows(e: Editor, selected: seq<int>): (r: Editor)
    requires Valid(e)
    requires e.model.Some? ==> TableModel.RemovableRows(e.model.value, selected)
    ensures Valid(r)
    ensures e.model.None? || |selected| == 0 ==> r == e
    ensures e.model.Some? && |selected| > 0 ==>
      r == e.(model := Some(Table(e.model.value.columns, Keep(e.model.value.rows, Elements(selected)))))
  {
    if e.model.None? || |selected| == 0 then e
    else e.(model := Some(TableModel.RemoveRows(e.model.value, selected)))
  }

  /**
   * `_reload_labels`: with a label file bound, the table becomes the file's
   * contents normalised to the label columns (empty when it cannot be read).
   */
  function ReloadLabels(e: Editor, file: FileRead): (r: Editor)
    requires ValidRead(file)
    ensures e.labelsPath.None? ==> r == e
    ensures e.labelsPath.Some? ==> (r.model.Some? && WellFormed(r.model.value)
      && r.model.value.columns == LabelColumns
      && r.model.value.rows == (if file.Parsed? then Normalize(file.table, LabelColumns).rows else [])
      && r == e.(model := r.model))
  {
    if e.labelsPath.None? then e
    else e.(model := Some(LoadWithSchema(file, LabelColumns)))
  }

  /** After a reload, each label column holds the file's cells, or "" where the file lacks the column. */
  lemma ReloadKeepsFileCells(e: Editor, t: Table, k: nat, c: string)
    requires WellFormed(t) && e.labelsPath.Some? && k < |t.rows| && c in LabelColumns
    ensures var m := ReloadLabels(e, Parsed(t)).model.value;
      |m.rows| == |t.rows| && At(m, k, c) == (if c in t.columns then At(t, k, c) else Blank)
  {
  }

  // ------------------------------------------------------- metadata link

  datatype LinkOutcome =
    | NotWritten                 // nothing to do, no file, unreadable file, or no row of this sample
    | Written(table: Table)      // the metadata table written back
    | SampleIdColumnMissing      // `df["sample_id"]` raises

  /**
   * `_sync_meta_link`: sets `labels_csv` to the label file's path on every
   * metadata row whose `sample_id` reads as the bound id, and writes the
   * table back only when some row matched.
   */
  function SyncMetaLink(sampleId: Option<string>, labelsPath: Option<string>, meta: FileRead): (r: LinkOutcome)
    requires ValidRead(meta)
    ensures sampleId.None? || sampleId.value == "" || labelsPath.None? || !meta.Parsed? ==> r == NotWritten
    ensures r.Written? ==>
      && meta.Parsed? && sampleId.Some? && labelsPath.Some? && "sample_id" in meta.table.columns
      && (exists k | 0 <= k < |meta.table.rows| :: StrOf(At(meta.table, k, "sample_id")) == sampleId.value)
      && LinkedFrom(meta.table, r.table, sampleId.value, labelsPath.value)
    ensures r.NotWritten? && meta.Parsed? && sampleId.Some? && labelsPath.Some? && sampleId.value != "" ==>
      "sample_id" in meta.table.columns && NoRowMatches(meta.table, sampleId.value)
    ensures r.SampleIdColumnMissing? <==>
      sampleId.Some? && sampleId.value != "" && labelsPath.Some? && meta.Parsed? && "sample_id" !in meta.table.columns
  {
    if sampleId.None? || sampleId.value == "" || labelsPath.None? || !meta.Parsed? then NotWritten
    else
      var t := meta.table;
      var t1 := AddMissingColumns(t, ["labels_csv"]);
      if "sample_id" !in t.columns then SampleIdColumnMissing
      else
        var mask := MatchMask(t1, "sample_id", sampleId.value);
        if !AnyTrue(mask) then
          NoMaskNoMatch(t, t1, mask, sampleId.value);
          NotWritten
        else
          var t' := AssignWhere(t1, mask, "labels_csv", Text(labelsPath.value));
          LinkFacts(t, t1, t', mask, sampleId.value, labelsPath.value);
          Written(t')
  }

  predicate NoRowMatches(t: Table, sid: string)
    requires WellFormed(t) && "sample_id" in t.columns
  {
    forall k | 0 <= k < |t.rows| :: StrOf(At(t, k, "sample_id")) != sid
  }

  /**
   * `t'` is `t` with `labels_csv` (appended when absent) set to `path` on the
   * rows whose id reads as `sid`; every other cell is kept and a new column starts out "".
   */
  predicate LinkedFrom(t: Table, t': Table, sid: string, path: string)
    requires WellFormed(t) && "sample_id" in t.columns
  {
    && WellFormed(t') && "labels_csv" in t'.columns
    && t'.columns == t.columns + (if "labels_csv" in t.columns then [] else ["labels_csv"])
    && |t'.rows| == |t.rows|
    && (forall k | 0 <= k < |t.rows| ::
          At(t', k, "labels_csv") ==
            (if StrOf(At(t, k, "sample_id")) == sid then Text(path)
             else if "labels_csv" in t.columns then At(t, k, "labels_csv") else Blank))
    && (forall k, c | 0 <= k < |t.rows| && c in t.columns && c != "labels_csv" :: At(t', k, c) == At(t, k, c))
  }

  lemma NoMaskNoMatch(t: Table, t1: Table, mask: seq<bool>, sid: string)
    requires WellFormed(t) && "sample_id" in t.columns
    requires t1 == AddMissingColumns(t, ["labels_csv"])
    requires mask == MatchMask(t1, "sample_id", sid) && !AnyTrue(mask)
    ensures NoRowMatches(t, sid)
  {
    forall k | 0 <= k < |t.rows| ensures StrOf(At(t, k, "sample_id")) != sid {
      AtAfterAddMissing(t, ["labels_csv"], k, "sample_id");
    }
  }

  lemma LinkFacts(t: Table, t1: Table, t': Table, mask: seq<bool>, sid: string, path: string)
    requires WellFormed(t) && "sample_id" in t.columns
    requires t1 == AddMissingColumns(t, ["labels_csv"])
    requires mask == MatchMask(t1, "sample_id", sid) && AnyTrue(mask)
    requires t' == AssignWhere(t1, mask, "labels_csv", Text(path))
    ensures exists k | 0 <= k < |t.rows| :: StrOf(At(t, k, "sample_id")) == sid
    ensures LinkedFrom(t, t', sid, path)
  {
    AddOneColumn(t, "labels_csv");
    LinkHasMatch(t, t1, mask, sid);
    LinkedColumn(t, t1, t', mask, sid, path);
    AssignAfterAddKeeps(t, t1, t', mask, "labels_csv", Text(path));
  }

  lemma LinkHasMatch(t: Table, t1: Table, mask: seq<bool>, sid: string)
    requires WellFormed(t) && "sample_id" in t.columns
    requires t1 == AddMissingColumns(t, ["labels_csv"])
    requires mask == MatchMask(t1, "sample_id", sid) && AnyTrue(mask)
    ensures exists k | 0 <= k < |t.rows| :: StrOf(At(t, k, "sample_id")) == sid
  {
    var k :| 0 <= k < |mask| && mask[k];
    AtAfterAddMissing(t, ["labels_csv"], k, "sample_id");
  }

  /** The `labels_csv` column after the link: the path on matching rows, the old link or "" elsewhere. */
  lemma LinkedColumn(t: Table, t1: Table, t': Table, mask: seq<bool>, sid: string, path: string)
    requires WellFormed(t) && "sample_id" in t.columns
    requires t1 == AddMissingColumns(t, ["labels_csv"])
    requires mask == MatchMask(t1, "sample_id", sid)
    requires t' == AssignWhere(t1, mask, "labels_csv", Text(path))
    ensures forall k | 0 <= k < |t.rows| ::
      At(t', k, "labels_csv") ==
        (if StrOf(At(t, k, "sample_id")) == sid then Text(path)
         else if "labels_csv" in t.columns then At(t, k, "labels_csv") else Blank)
  {
    forall k | 0 <= k < |t.rows|
      ensures At(t', k, "labels_csv") ==
        (if StrOf(At(t, k, "sample_id")) == sid then Text(path)
         else if "labels_csv" in t.columns then At(t, k, "labels_csv") else Blank)
    {
      AtAfterAddMissing(t, ["labels_csv"], k, "sample_id");
      if "labels_csv" in t.columns {
        AtAfterAddMissing(t, ["labels_csv"], k, "labels_csv");
      } else {
        AtAddedColumn(t, ["labels_csv"], k, "labels_csv");
      }
    }
  }

  // ------------------------------------------------------------ classes

  /** No column before position `i` is named "type" once stripped and lower-cased. */
  predicate NoTypeBefore(cols: seq<string>, i: int)
    requires i <= |cols|
  {
    forall j | 0 <= j < i :: Lower(Strip(cols[j])) != "type"
  }

  /** The first column whose stripped, lower-cased name is "type". */
  function TypeColumn(cols: seq<string>): (r: Option<string>)
    ensures r.Some? ==> r.value in cols && Lower(Strip(r.value)) == "type"
    ensures r.Some? ==> exists i | 0 <= i < |cols| :: cols[i] == r.value && NoTypeBefore(cols, i)
    ensures r.None? ==> forall c | c in cols :: Lower(Strip(c)) != "type"
  {
    if |cols| == 0 then None
    else if Lower(Strip(cols[0])) == "type" then Some(cols[0])
    else
      var r := TypeColumn(cols[1..]);
      FirstMatchShifts(cols, r);
      r
  }

  /** A first match in the tail, behind a head that does not match, is the first match of the whole. */
  lemma FirstMatchShifts(cols: seq<string>, r: Option<string>)
    requires |cols| > 0 && Lower(Strip(cols[0])) != "type"
    requires r.Some? ==> exists i | 0 <= i < |cols| - 1 :: cols[1..][i] == r.value && NoTypeBefore(cols[1..], i)
    ensures r.Some? ==> exists i | 0 <= i < |cols| :: cols[i] == r.value && NoTypeBefore(cols, i)
  {
    if r.Some? {
      var i :| 0 <= i < |cols| - 1 && cols[1..][i] == r.value && NoTypeBefore(cols[1..], i);
      forall j | 0 <= j < i + 1 ensures Lower(Strip(cols[j])) != "type" {
        if j > 0 {
          assert cols[j] == cols[1..][j - 1];
        }
      }
      assert cols[i + 1] == r.value;
    }
  }

  function NonMissing(cells: seq<Cell>): seq<Cell> {
    Filter(cells, (c: Cell) => !c.Missing?)
  }

  function MapStr(cells: seq<Cell>): (r: seq<string>)
    ensures |r| == |cells|
    ensures forall i | 0 <= i < |cells| :: r[i] == StrOf(cells[i])
  {
    seq(|cells|, i requires 0 <= i < |cells| => StrOf(cells[i]))
  }

  /**
   * `_load_classes`: "" followed by the sorted `str` forms of the distinct
   * non-missing values of the type column; just [""] when the file is absent
   * or unreadable or has no such column.
   */
  function ClassOptions(file: FileRead): (opts: seq<string>)
    requires ValidRead(file)
    ensures |opts| >= 1 && opts[0] == ""
    ensures Sorted(opts[1..])
    ensures !file.Parsed? || TypeColumn(file.table.columns).None? ==> opts == [""]
    ensures file.Parsed? && TypeColumn(file.table.columns).Some? ==>
      var cells := Column(file.table, TypeColumn(file.table.columns).value);
      forall x :: x in opts[1..] <==> exists k | 0 <= k < |cells| :: !cells[k].Missing? && StrOf(cells[k]) == x
  {
    if !file.Parsed? then [""]
    else match TypeColumn(file.table.columns)
      case None => [""]
      case Some(c) =>
        var cells := Column(file.table, c);
        var vals := MapStr(Unique(NonMissing(cells)));
        var sorted := SortStrings(vals);
        ClassValues(cells);
        assert ([""] + sorted)[1..] == sorted;
        [""] + sorted
  }

  /** The `str` forms of the distinct non-missing cells are exactly those of the non-missing cells. */
  lemma ClassValues(cells: seq<Cell>)
    ensures forall x :: x in MapStr(Unique(NonMissing(cells))) <==>
      exists k | 0 <= k < |cells| :: !cells[k].Missing? && StrOf(cells[k]) == x
  {
    var u := Unique(NonMissing(cells));
    var vals := MapStr(u);
    forall x ensures x in vals <==> exists k | 0 <= k < |cells| :: !cells[k].Missing? && StrOf(cells[k]) == x {
      if x in vals {
        var i :| 0 <= i < |vals| && vals[i] == x;
        assert u[i] in NonMissing(cells);
        var k :| 0 <= k < |cells| && cells[k] == u[i];
      }
      if exists k | 0 <= k < |cells| :: !cells[k].Missing? && StrOf(cells[k]) == x {
        var k :| 0 <= k < |cells| && !cells[k].Missing? && StrOf(cells[k]) == x;
        assert cells[k] in NonMissing(cells);
        var i :| 0 <= i < |u| && u[i] == cells[k];
        assert vals[i] == x;
      }
    }
  }

  /** For a type column of text values the options after "" have no repeats and are strictly increasing. */
  lemma ClassOptionsStrictForText(file: FileRead)
    requires ValidRead(file) && file.Parsed? && TypeColumn(file.table.columns).Some?
    requires forall k | 0 <= k < |file.table.rows| :: !IsNumber(At(file.table, k, TypeColumn(file.table.columns).value))
    ensures var opts := ClassOptions(file);
      forall i, j | 1 <= i < j < |opts| :: LexLe(opts[i], opts[j]) && opts[i] != opts[j]
  {
    var c := TypeColumn(file.table.columns).value;
    var cells := Column(file.table, c);
    var u := Unique(NonMissing(cells));
    var vals := MapStr(u);
    assert forall i | 0 <= i < |u| :: u[i].Text? by {
      forall i | 0 <= i < |u| ensures u[i].Text? {
        assert u[i] in NonMissing(cells);
      }
    }
    assert Distinct(vals) by {
      forall i, j | 0 <= i < j < |vals| ensures vals[i] != vals[j] {
        assert u[i] != u[j];
      }
    }
    var sorted := SortStrings(vals);
    PermutationKeepsDistinct(vals, sorted);
    SortedDistinctIsStrict(sorted);
    var opts := ClassOptions(file);
    assert opts[1..] == sorted;
    forall i, j | 1 <= i < j < |opts| ensures LexLe(opts[i], opts[j]) && opts[i] != opts[j] {
      assert opts[i] == sorted[i - 1] && opts[j] == sorted[j - 1];
    }
  }

  // ------------------------------------------------------ time and seeking

  /** Python's `int(n / d)` for a positive divisor: the quotient truncated toward zero. */
  function TruncDiv(n: int, d: int): int
    requires d > 0
  {
    if n >= 0 then n / d else -((-n) / d)
  }

  /** `fmt(m)` of `_update_time_label`: whole seconds as minutes and seconds, each at least two digits. */
  function Clock(ms: int): string {
    var s := TruncDiv(ms, 1000);
    Pad2(s / 60) + ":" + Pad2(s % 60)
  }

  /** The readout "position / duration". */
  function TimeLabel(posMs: int, durMs: int): string {
    Clock(posMs) + " / " + Clock(durMs)
  }

  /** Reads "m:ss" back as a number of seconds. */
  function ParseClock(text: string): Option<nat> {
    var parts := Split(text, ':');
    if |parts| != 2 || |parts[0]| < 2 || |parts[1]| != 2 then None
    else match (ParseNat(parts[0]), ParseNat(parts[1]))
      case (Some(m), Some(s)) => if s < 60 then Some(m * 60 + s) else None
      case _ => None
  }

  /**
   * For a non-negative position the readout is minutes of at least two digits
   * and two-digit seconds, which give back the whole seconds.
   */
  lemma ClockRoundTrip(ms: nat)
    ensures |Split(Clock(ms), ':')| == 2
    ensures |Split(Clock(ms), ':')[0]| >= 2 && |Split(Clock(ms), ':')[1]| == 2
    ensures ParseClock(Clock(ms)) == Some(ms / 1000)
  {
    var s := ms / 1000;
    ClockParts(ms);
    ParseNatOfPad2(s / 60);
    ParseNatOfPad2(s % 60);
  }

  /** The readout splits at its one colon into the padded minutes and seconds. */
  lemma ClockParts(ms: nat)
    ensures Split(Clock(ms), ':') == [Pad2(ms / 1000 / 60), Pad2(ms / 1000 % 60)]
  {
    var s := ms / 1000;
    assert TruncDiv(ms, 1000) == s;
    var (a, b) := (Pad2(s / 60), Pad2(s % 60));
    ParseNatOfPad2(s / 60);
    ParseNatOfPad2(s % 60);
    assert ':' !in a by {
      forall i | 0 <= i < |a| ensures a[i] != ':' { assert IsDigit(a[i]); }
    }
    assert ':' !in b by {
      forall i | 0 <= i < |b| ensures b[i] != ':' { assert IsDigit(b[i]); }
    }
    SplitAfterPart(a, ':', b);
    SplitNoSeparator(b, ':');
    assert Clock(ms) == a + [':'] + b;
  }

  /** Unpadded minutes are not the readout's format. */
  lemma ParseClockNeedsPaddedMinutes()
    ensures ParseClock("5:07") == None
    ensures ParseClock("05:07") == Some(307)
  {
    SplitAfterPart("5", ':', "07");
    SplitNoSeparator("07", ':');
    assert "5:07" == "5" + [':'] + "07";
    SplitAfterPart("05", ':', "07");
    assert "05:07" == "05" + [':'] + "07";
    ParseNatOfPad2(5);
    ParseNatOfPad2(7);
    assert Pad2(5) == "05" && Pad2(7) == "07";
  }

  /**
   * `SeekSlider._value_from_event`: the click's x clamped to the widget,
   * scaled into the slider's range and truncated like `int(...)`.
   */
  function SliderValue(x: int, width: int, minimum: int, maximum: int): (v: int)
    requires minimum <= maximum
    ensures minimum <= v <= maximum
    ensures x <= 0 ==> v == minimum
    ensures width > 0 && x >= width ==> v == maximum
  {
    var clamped := if x < 0 then 0 else if x > width then (if width < 0 then 0 else width) else x;
    var w := if width < 1 then 1 else width;
    assert 0 <= clamped <= w;
    var n := minimum * w + clamped * (maximum - minimum);
    ScaledBetween(minimum, maximum, clamped, w);
    TruncDivBetween(n, w, minimum, maximum);
    TruncDiv(n, w)
  }

  lemma ScaledBetween(lo: int, hi: int, c: int, w: int)
    requires lo <= hi && 0 <= c <= w && w >= 1
    ensures lo * w <= lo * w + c * (hi - lo) <= hi * w
    ensures c == 0 ==> lo * w + c * (hi - lo) == lo * w
    ensures c == w ==> lo * w + c * (hi - lo) == hi * w
  {
    assert c * (hi - lo) <= w * (hi - lo) by {
      assert (w - c) * (hi - lo) >= 0;
    }
    assert w * (hi - lo) == hi * w - lo * w;
  }

  lemma TruncDivBetween(n: int, w: int, lo: int, hi: int)
    requires w >= 1 && lo * w <= n <= hi * w
    ensures lo <= TruncDiv(n, w) <= hi
    ensures n == lo * w ==> TruncDiv(n, w) == lo
    ensures n == hi * w ==> TruncDiv(n, w) == hi
  {
    if n >= 0 {
      DivBetween(n, w, lo, hi);
    } else {
      assert -hi * w <= -n <= -lo * w;
      DivBetween(-n, w, -hi, -lo);
    }
  }

  lemma DivBetween(n: int, w: int, lo: int, hi: int)
    requires w >= 1 && n >= 0 && lo * w <= n <= hi * w
    ensures (if lo > 0 then lo else 0) <= n / w <= hi
    ensures n == lo * w ==> n / w == lo
    ensures n == hi * w ==> n / w == hi
  {
    var q := n / w;
    assert n == q * w + n % w && 0 <= n % w < w;
    assert (q + 1) * w == q * w + w && (hi + 1) * w == hi * w + w;
    LtOfMulLt(0, q + 1, w);
    LtOfMulLt(lo, q + 1, w);
    LtOfMulLt(q, hi + 1, w);
    if n == lo * w {
      LeOfMulLe(q, lo, w);
    }
    if n == hi * w {
      LtOfMulLt(hi, q + 1, w);
    }
  }

  lemma LtOfMulLt(a: int, b: int, w: int)
    requires w > 0 && a * w < b * w
    ensures a < b
  {
  }

  lemma LeOfMulLe(a: int, b: int, w: int)
    requires w > 0 && a * w <= b * w
    ensures a <= b
  {
  }

  /**
   * `_on_wave_click` / `_on_spec_click`: with a waveform loaded, seek to the
   * clicked time clamped to non-negative, in whole milliseconds.
   */
  function ClickSeek(waveLoaded: bool, x: real): (ms: Option<int>)
    ensures !waveLoaded ==> ms.None?
    ensures waveLoaded ==> ms.Some? && ms.value >= 0
    ensures waveLoaded && x <= 0.0 ==> ms == Some(0)
    ensures waveLoaded && x > 0.0 ==> ms.value as real <= x * 1000.0 < ms.value as real + 1.0
  {
    if !waveLoaded then None
    else
      var sec := if x > 0.0 then x else 0.0;
      Some((sec * 1000.0).Floor)
  }
}
