/**
 * The new-sample page: appending a metadata row, updating a sample's row in
 * place (or appending it when absent), the submit decision, and loading a
 * stored sample back into the form.
 */
module NewSample {
  import opened Options
  import opened Strings
  import opened Seqs
  import opened Tables

  const MetaColumns: seq<string> := ["sample_id", "date", "time", "temperature_c", "pressure_kpa",
    "latitude", "longitude", "count", "sample_name", "labels_csv", "created_at"]

  lemma MetaColumnsDistinct()
    ensures Distinct(MetaColumns)
  {
  }

  // ------------------------------------------------------------- append

  /**
   * `_append_row`: the stored table normalised to the metadata columns (an
   * empty one when the file is missing or unreadable), plus one last row of
   * "" overridden by `row`.
   */
  function AppendMetaRow(file: FileRead, row: map<string, string>): (t: Table)
    requires ValidRead(file)
    ensures WellFormed(t) && t.columns == MetaColumns
    ensures var base := LoadWithSchema(file, MetaColumns);
      && |t.rows| == |base.rows| + 1 && t.rows[..|base.rows|] == base.rows
      && forall c | c in MetaColumns :: At(t, |base.rows|, c) == Text(if c in row then row[c] else "")
  {
    var base := LoadWithSchema(file, MetaColumns);
    var d := Defaulted(MetaColumns, row);
    forall c | c in MetaColumns ensures At(AppendRow(base, d), |base.rows|, c) == Text(if c in row then row[c] else "") {
      AtAppended(base, d, c);
    }
    AppendRow(base, d)
  }

  /** The rows already stored keep their cells, moved into the metadata column order. */
  lemma AppendKeepsStoredRows(t: Table, row: map<string, string>, k: nat, c: string)
    requires WellFormed(t) && k < |t.rows| && c in MetaColumns
    ensures var r := AppendMetaRow(Parsed(t), row);
      k < |r.rows| && At(r, k, c) == (if c in t.columns then At(t, k, c) else Blank)
  {
    MetaColumnsDistinct();
    var base := LoadWithSchema(Parsed(t), MetaColumns);
    assert At(base, k, c) == (if c in t.columns then At(t, k, c) else Blank);
    AtInPrefix(base, AppendMetaRow(Parsed(t), row), k, c);
  }

  // ------------------------------------------------------------- update

  /**
   * The table `_update_row` works on: the stored one with `sample_id` and
   * then every missing metadata column added at the end. When the file is
   * missing or unreadable it starts from an empty frame with the metadata
   * columns, which the additions leave as it is (`SchemaFrameUnchanged`).
   */
  function PrepareForUpdate(file: FileRead): (t: Table)
    requires ValidRead(file)
    ensures WellFormed(t)
    ensures forall c | c in MetaColumns :: c in t.columns
    ensures file.Parsed? ==> (
      && |t.rows| == |file.table.rows|
      && |file.table.columns| <= |t.columns| && t.columns[..|file.table.columns|] == file.table.columns
      && forall c | c in t.columns :: c in file.table.columns || c in MetaColumns)
    ensures file.Parsed? ==> forall k, c | 0 <= k < |t.rows| && c in t.columns && c !in file.table.columns ::
      At(t, k, c) == Blank
    ensures !file.Parsed? ==> t == Table(MetaColumns, [])
  {
    MetaColumnsDistinct();
    if file.Parsed? then
      AddTwiceKeepsPrefix(file.table, ["sample_id"], MetaColumns);
      AddTwiceBlank(file.table, ["sample_id"], MetaColumns);
      AddMissingColumns(AddMissingColumns(file.table, ["sample_id"]), MetaColumns)
    else Table(MetaColumns, [])
  }

  /** Two rounds of `AddMissingColumns` keep the original columns first and add only named ones. */
  lemma AddTwiceKeepsPrefix(t0: Table, a: seq<string>, b: seq<string>)
    requires WellFormed(t0)
    requires forall c | c in a :: c in b
    ensures var t2 := AddMissingColumns(AddMissingColumns(t0, a), b);
      && |t0.columns| <= |t2.columns| && t2.columns[..|t0.columns|] == t0.columns
      && (forall c | c in t2.columns :: c in t0.columns || c in b)
      && (forall c | c in b :: c in t2.columns)
      && |t2.rows| == |t0.rows|
  {
    var t1 := AddMissingColumns(t0, a);
    var t2 := AddMissingColumns(t1, b);
    assert t2.columns[..|t0.columns|] == t2.columns[..|t1.columns|][..|t0.columns|];
  }

  /** Every column the two rounds add is "" in every row. */
  lemma AddTwiceBlank(t0: Table, a: seq<string>, b: seq<string>)
    requires WellFormed(t0)
    ensures var t2 := AddMissingColumns(AddMissingColumns(t0, a), b);
      forall k, c | 0 <= k < |t2.rows| && c in t2.columns && c !in t0.columns :: At(t2, k, c) == Blank
  {
    var t1 := AddMissingColumns(t0, a);
    var t2 := AddMissingColumns(t1, b);
    forall k, c | 0 <= k < |t2.rows| && c in t2.columns && c !in t0.columns ensures At(t2, k, c) == Blank {
      var j := ColumnIndex(t2.columns, c);
      assert t2.columns[..|t1.columns|][..|t0.columns|] == t0.columns;
      forall i | 0 <= i < |t0.columns| ensures t2.columns[i] != c {
        assert t2.columns[i] == t0.columns[i];
      }
      assert j >= |t0.columns|;
      if j < |t1.columns| {
        assert t2.rows[k][..|t1.columns|] == t1.rows[k];
        assert t2.rows[k][j] == t1.rows[k][j];
      }
    }
  }

  /** The empty frame with the metadata columns already has `sample_id` and every metadata column. */
  lemma SchemaFrameUnchanged(t0: Table)
    requires t0 == Table(MetaColumns, [])
    ensures AddMissingColumns(AddMissingColumns(t0, ["sample_id"]), MetaColumns) == t0
  {
    assert "sample_id" in MetaColumns;
    AllPresentUnchanged(t0, ["sample_id"]);
    AllPresentUnchanged(t0, MetaColumns);
  }

  /** Cells of a column `PrepareForUpdate` kept are those of the file. */
  lemma PreparedCell(file: FileRead, k: nat, c: string)
    requires ValidRead(file) && file.Parsed? && k < |file.table.rows| && c in file.table.columns
    ensures c in PrepareForUpdate(file).columns && At(PrepareForUpdate(file), k, c) == At(file.table, k, c)
  {
    var t0 := file.table;
    var t1 := AddMissingColumns(t0, ["sample_id"]);
    AtAfterAddMissing(t0, ["sample_id"], k, c);
    assert c in t1.columns[..|t0.columns|];
    AtAfterAddMissing(t1, MetaColumns, k, c);
  }

  /** `for k, v in row.items(): if k in df.columns: df.loc[mask, k] = v`, one column of `cols` at a time. */
  function AssignFields(t: Table, mask: seq<bool>, cols: seq<string>, row: map<string, string>): (r: Table)
    requires WellFormed(t) && |mask| == |t.rows| && forall c | c in cols :: c in t.columns
    ensures WellFormed(r) && r.columns == t.columns && |r.rows| == |t.rows|
    ensures forall k, c | 0 <= k < |t.rows| && c in t.columns ::
      At(r, k, c) == (if mask[k] && c in cols && c in row then Text(row[c]) else At(t, k, c))
    decreases |cols|
  {
    if |cols| == 0 then t
    else
      var t1 := if cols[0] in row then AssignWhere(t, mask, cols[0], Text(row[cols[0]])) else t;
      assert forall c | c in cols[1..] :: c in cols;
      var r := AssignFields(t1, mask, cols[1..], row);
      assert forall c | c in cols :: c == cols[0] || c in cols[1..];
      r
  }

  /**
   * `_update_row` on the prepared table: when some row's `sample_id` reads as
   * `sid`, every such row takes the given fields that are columns; otherwise
   * a row of "" overridden by `row` is appended.
   */
  function Upsert(t: Table, sid: string, row: map<string, string>): (r: Table)
    requires WellFormed(t) && "sample_id" in t.columns
    ensures WellFormed(r) && r.columns == t.columns
    ensures Matches(t, sid) ==>
      && |r.rows| == |t.rows|
      && forall k, c | 0 <= k < |t.rows| && c in t.columns ::
           At(r, k, c) == (if StrOf(At(t, k, "sample_id")) == sid && c in row then Text(row[c]) else At(t, k, c))
    ensures !Matches(t, sid) ==>
      && |r.rows| == |t.rows| + 1 && r.rows[..|t.rows|] == t.rows
      && forall c | c in t.columns ::
           At(r, |t.rows|, c) == (if c in row then Text(row[c]) else if c in MetaColumns then Blank else Missing)
  {
    var mask := MatchMask(t, "sample_id", sid);
    if AnyTrue(mask) then
      var k :| 0 <= k < |mask| && mask[k];
      AssignFields(t, mask, t.columns, row)
    else
      var d := Defaulted(MetaColumns, row);
      forall c | c in t.columns
        ensures At(AppendRow(t, d), |t.rows|, c) == (if c in row then Text(row[c]) else if c in MetaColumns then Blank else Missing)
      {
        AtAppended(t, d, c);
      }
      AppendRow(t, d)
  }

  /** Some row's `sample_id` reads as `sid` through `astype(str)`. */
  predicate Matches(t: Table, sid: string)
    requires WellFormed(t) && "sample_id" in t.columns
  {
    exists k | 0 <= k < |t.rows| :: StrOf(At(t, k, "sample_id")) == sid
  }

  /** `_update_row(sid, row)` against the stored file. */
  function UpdateRow(file: FileRead, sid: string, row: map<string, string>): (t: Table)
    requires ValidRead(file)
    ensures WellFormed(t) && forall c | c in MetaColumns :: c in t.columns
  {
    Upsert(PrepareForUpdate(file), sid, row)
  }

  /** After an upsert whose fields carry the same id, some row reads as that id. */
  lemma UpsertFindsSample(t: Table, sid: string, row: map<string, string>)
    requires WellFormed(t) && "sample_id" in t.columns
    requires "sample_id" in row && row["sample_id"] == sid
    ensures Matches(Upsert(t, sid, row), sid)
  {
    var r := Upsert(t, sid, row);
    if Matches(t, sid) {
      var k :| 0 <= k < |t.rows| && StrOf(At(t, k, "sample_id")) == sid;
      assert StrOf(At(r, k, "sample_id")) == sid;
    } else {
      assert StrOf(At(r, |t.rows|, "sample_id")) == sid;
    }
  }

  /** Saving the same fields twice stores the same table as saving them once. */
  lemma {:induction false} UpsertIdempotent(t: Table, sid: string, row: map<string, string>)
    requires WellFormed(t) && "sample_id" in t.columns
    requires "sample_id" in row && row["sample_id"] == sid
    ensures Upsert(Upsert(t, sid, row), sid, row) == Upsert(t, sid, row)
  {
    var r := Upsert(t, sid, row);
    UpsertFindsSample(t, sid, row);
    if Matches(t, sid) {
      forall k, c | 0 <= k < |r.rows| && c in r.columns && c in row && StrOf(At(r, k, "sample_id")) == sid
        ensures At(r, k, c) == Text(row[c])
      {
        assert StrOf(At(t, k, "sample_id")) == sid;
      }
    } else {
      forall k | 0 <= k < |t.rows| ensures StrOf(At(r, k, "sample_id")) != sid {
        AtBeforeAppended(t, Defaulted(MetaColumns, row), k, "sample_id");
      }
    }
    UpsertSettled(r, sid, row);
  }

  /** When every row reading as `sid` already holds the fields, the upsert writes nothing new. */
  lemma UpsertSettled(r: Table, sid: string, row: map<string, string>)
    requires WellFormed(r) && "sample_id" in r.columns && Matches(r, sid)
    requires forall k, c | 0 <= k < |r.rows| && c in r.columns && c in row && StrOf(At(r, k, "sample_id")) == sid ::
      At(r, k, c) == Text(row[c])
    ensures Upsert(r, sid, row) == r
  {
    TableEq(Upsert(r, sid, row), r);
  }

  // ------------------------------------------------------------- submit

  /** The form's texts, date and time already formatted as "yyyy-MM-dd" and "HH:mm:ss". */
  datatype Form = Form(date: string, time: string, temperature: string, pressure: string,
                       latitude: string, longitude: string, count: string, name: string)

  /** Whether the page is editing a stored sample, and which. */
  datatype Mode = Mode(editing: bool, editId: Option<string>)

  const CreateMode := Mode(false, None)

  datatype Submitted =
    | NameRequired                    // warning shown, nothing written, no navigation
    | SaveError                       // writing raised; mode kept
    | Saved(sampleId: string, table: Table)  // table written, then on to the label editor with this id

  /** The fields `_handle_submit` saves. */
  function SubmittedRow(sid: string, f: Form, createdAt: string): map<string, string> {
    MetaFields(sid, f.date, f.time, Strip(f.temperature), Strip(f.pressure), Strip(f.latitude),
      Strip(f.longitude), Strip(f.count), Strip(f.name), createdAt)
  }

  function MetaFields(sid: string, date: string, time: string, temperature: string, pressure: string,
                      latitude: string, longitude: string, count: string, name: string, createdAt: string): map<string, string> {
    map[
      "date" := date, "time" := time,
      "temperature_c" := temperature, "pressure_kpa" := pressure,
      "latitude" := latitude, "longitude" := longitude,
      "count" := count, "created_at" := createdAt,
      "sample_id" := sid, "sample_name" := name, "labels_csv" := ""]
  }

  lemma MetaFieldsEntries(sid: string, date: string, time: string, temperature: string, pressure: string,
                          latitude: string, longitude: string, count: string, name: string, createdAt: string)
    ensures var row := MetaFields(sid, date, time, temperature, pressure, latitude, longitude, count, name, createdAt);
      && "sample_id" in row && row["sample_id"] == sid
      && "sample_name" in row && row["sample_name"] == name
      && "labels_csv" in row && row["labels_csv"] == ""
      && "date" in row && row["date"] == date && "time" in row && row["time"] == time
      && "temperature_c" in row && row["temperature_c"] == temperature
      && "pressure_kpa" in row && row["pressure_kpa"] == pressure
      && "latitude" in row && row["latitude"] == latitude && "longitude" in row && row["longitude"] == longitude
      && "count" in row && row["count"] == count && "created_at" in row && row["created_at"] == createdAt
  {
  }

  predicate Editing(m: Mode) {
    m.editing && m.editId.Some? && m.editId.value != ""
  }

  /**
   * `_handle_submit`: refuses a blank sample name; otherwise keeps the edited
   * id in edit mode or builds `stamp-xxxxxx` from the first six characters of
   * the uuid's hex, updates or appends the row, and on success navigates
   * with that id and leaves edit mode. `writeOk` is whether writing the file
   * succeeded.
   */
  function HandleSubmit(f: Form, mode: Mode, file: FileRead, stamp: string, uuidHex: string,
                        createdAt: string, writeOk: bool): (r: (Submitted, Mode))
    requires ValidRead(file) && |uuidHex| == 32
    ensures Strip(f.name) == "" ==> r == (NameRequired, mode)
    ensures Strip(f.name) != "" && !writeOk ==> r == (SaveError, mode)
    ensures Strip(f.name) != "" && writeOk ==> r.0.Saved? && r.1 == CreateMode
    ensures r.0.Saved? && Editing(mode) ==> r.0.sampleId == mode.editId.value
    ensures r.0.Saved? && !Editing(mode) ==> r.0.sampleId == stamp + "-" + uuidHex[..6]
    ensures r.0.Saved? ==> WellFormed(r.0.table) && forall c | c in MetaColumns :: c in r.0.table.columns
  {
    if Strip(f.name) == "" then (NameRequired, mode)
    else
      var sid := if Editing(mode) then mode.editId.value else stamp + "-" + uuidHex[..6];
      var row := SubmittedRow(sid, f, createdAt);
      var t := if Editing(mode) then UpdateRow(file, sid, row) else AppendMetaRow(file, row);
      if !writeOk then (SaveError, mode) else (Saved(sid, t), CreateMode)
  }

  lemma SubmittedRowEntries(sid: string, f: Form, createdAt: string)
    ensures var row := SubmittedRow(sid, f, createdAt);
      && "sample_id" in row && row["sample_id"] == sid
      && "sample_name" in row && row["sample_name"] == Strip(f.name)
      && "labels_csv" in row && row["labels_csv"] == ""
  {
    MetaFieldsEntries(sid, f.date, f.time, Strip(f.temperature), Strip(f.pressure), Strip(f.latitude),
      Strip(f.longitude), Strip(f.count), Strip(f.name), createdAt);
  }

  /** The submitted row carries the form's date and time as given and its typed fields stripped. */
  lemma SubmittedFormEntries(sid: string, f: Form, createdAt: string)
    ensures var row := SubmittedRow(sid, f, createdAt);
      && "date" in row && row["date"] == f.date && "time" in row && row["time"] == f.time
      && "temperature_c" in row && row["temperature_c"] == Strip(f.temperature)
      && "pressure_kpa" in row && row["pressure_kpa"] == Strip(f.pressure)
      && "latitude" in row && row["latitude"] == Strip(f.latitude)
      && "longitude" in row && row["longitude"] == Strip(f.longitude)
      && "count" in row && row["count"] == Strip(f.count) && "created_at" in row && row["created_at"] == createdAt
  {
    MetaFieldsEntries(sid, f.date, f.time, Strip(f.temperature), Strip(f.pressure), Strip(f.latitude),
      Strip(f.longitude), Strip(f.count), Strip(f.name), createdAt);
  }

  /** A new sample becomes the last row after the stored ones, its id and name as submitted and its label link blank. */
  lemma CreateAppendsSample(f: Form, file: FileRead, stamp: string, uuidHex: string, createdAt: string)
    requires ValidRead(file) && |uuidHex| == 32 && Strip(f.name) != ""
    ensures var r := HandleSubmit(f, CreateMode, file, stamp, uuidHex, createdAt, true).0;
      var t := r.table;
      var n := |LoadWithSchema(file, MetaColumns).rows|;
      && r.Saved? && t.columns == MetaColumns && |t.rows| == n + 1
      && t.rows[..n] == LoadWithSchema(file, MetaColumns).rows
      && At(t, n, "sample_id") == Text(stamp + "-" + uuidHex[..6])
      && At(t, n, "sample_name") == Text(Strip(f.name))
      && At(t, n, "labels_csv") == Text("")
  {
    var sid := stamp + "-" + uuidHex[..6];
    var row := SubmittedRow(sid, f, createdAt);
    SubmittedRowEntries(sid, f, createdAt);
    var t := AppendMetaRow(file, row);
    assert HandleSubmit(f, CreateMode, file, stamp, uuidHex, createdAt, true).0 == Saved(sid, t);
    assert "sample_id" in MetaColumns && "sample_name" in MetaColumns && "labels_csv" in MetaColumns;
  }

  /** Row `k` has column `c` and it holds the text `s`. */
  predicate HoldsText(t: Table, k: nat, c: string, s: string)
    requires WellFormed(t) && k < |t.rows|
  {
    c in t.columns && At(t, k, c) == Text(s)
  }

  /** The new sample's row holds the form's other fields: date and time as given, the typed fields stripped, and the creation time. */
  lemma CreateStoresFormFields(f: Form, file: FileRead, stamp: string, uuidHex: string, createdAt: string)
    requires ValidRead(file) && |uuidHex| == 32 && Strip(f.name) != ""
    ensures var r := HandleSubmit(f, CreateMode, file, stamp, uuidHex, createdAt, true).0;
      var t := r.table;
      var n := |LoadWithSchema(file, MetaColumns).rows|;
      && r.Saved? && WellFormed(t) && |t.rows| == n + 1
      && HoldsText(t, n, "date", f.date) && HoldsText(t, n, "time", f.time)
      && HoldsText(t, n, "temperature_c", Strip(f.temperature)) && HoldsText(t, n, "pressure_kpa", Strip(f.pressure))
      && HoldsText(t, n, "latitude", Strip(f.latitude)) && HoldsText(t, n, "longitude", Strip(f.longitude))
      && HoldsText(t, n, "count", Strip(f.count)) && HoldsText(t, n, "created_at", createdAt)
  {
    var sid := stamp + "-" + uuidHex[..6];
    var t := AppendMetaRow(file, SubmittedRow(sid, f, createdAt));
    assert HandleSubmit(f, CreateMode, file, stamp, uuidHex, createdAt, true).0 == Saved(sid, t);
    SubmittedCells(t, |LoadWithSchema(file, MetaColumns).rows|, sid, f, createdAt);
  }

  lemma FormColumnsAreMeta()
    ensures "date" in MetaColumns && "time" in MetaColumns && "temperature_c" in MetaColumns && "pressure_kpa" in MetaColumns
    ensures "latitude" in MetaColumns && "longitude" in MetaColumns && "count" in MetaColumns && "created_at" in MetaColumns
  {
    assert MetaColumns[1] == "date" && MetaColumns[2] == "time" && MetaColumns[3] == "temperature_c" && MetaColumns[4] == "pressure_kpa";
    assert MetaColumns[5] == "latitude" && MetaColumns[6] == "longitude" && MetaColumns[7] == "count" && MetaColumns[10] == "created_at";
  }

  /** A metadata row holding the submitted fields holds each form field. */
  lemma SubmittedCells(t: Table, n: nat, sid: string, f: Form, createdAt: string)
    requires WellFormed(t) && t.columns == MetaColumns && n < |t.rows|
    requires var row := SubmittedRow(sid, f, createdAt);
      forall c | c in MetaColumns :: At(t, n, c) == Text(if c in row then row[c] else "")
    ensures HoldsText(t, n, "date", f.date) && HoldsText(t, n, "time", f.time)
    ensures HoldsText(t, n, "temperature_c", Strip(f.temperature)) && HoldsText(t, n, "pressure_kpa", Strip(f.pressure))
    ensures HoldsText(t, n, "latitude", Strip(f.latitude)) && HoldsText(t, n, "longitude", Strip(f.longitude))
    ensures HoldsText(t, n, "count", Strip(f.count)) && HoldsText(t, n, "created_at", createdAt)
  {
    SubmittedFormEntries(sid, f, createdAt);
    FormColumnsAreMeta();
  }

  /** In edit mode the stored row of the sample takes every submitted field. */
  lemma UpdateWritesFields(t: Table, sid: string, row: map<string, string>, k: nat, c: string)
    requires WellFormed(t) && "sample_id" in t.columns && k < |t.rows| && StrOf(At(t, k, "sample_id")) == sid
    requires c in MetaColumns && c in row
    ensures var u := UpdateRow(Parsed(t), sid, row);
      |u.rows| == |t.rows| && At(u, k, c) == Text(row[c])
  {
    var p := PrepareForUpdate(Parsed(t));
    PreparedCell(Parsed(t), k, "sample_id");
    assert Matches(p, sid);
  }

  /** Saving an edit writes "" into the label link of every row of the edited sample. */
  lemma EditClearsLabelLink(f: Form, id: string, t: Table, stamp: string, uuidHex: string, createdAt: string, k: nat)
    requires WellFormed(t) && |uuidHex| == 32 && Strip(f.name) != "" && id != ""
    requires "sample_id" in t.columns && k < |t.rows| && StrOf(At(t, k, "sample_id")) == id
    ensures var r := HandleSubmit(f, Mode(true, Some(id)), Parsed(t), stamp, uuidHex, createdAt, true).0;
      && r.Saved? && r.sampleId == id && |r.table.rows| == |t.rows| && "labels_csv" in r.table.columns
      && At(r.table, k, "labels_csv") == Text("")
  {
    var row := SubmittedRow(id, f, createdAt);
    SubmittedRowEntries(id, f, createdAt);
    var u := UpdateRow(Parsed(t), id, row);
    assert HandleSubmit(f, Mode(true, Some(id)), Parsed(t), stamp, uuidHex, createdAt, true).0 == Saved(id, u);
    UpdateWritesFields(t, id, row, k, "labels_csv");
  }

  // ------------------------------------------------------- open for edit

  /** `str(r.get("time", ...)).split(":")` read as hours, minutes, seconds; None where `int()` raises. */
  function TimeParts(text: string): (r: Option<(int, int, int)>)
    ensures |Split(text, ':')| != 3 ==> r == Some((0, 0, 0))
  {
    var parts := Split(text, ':');
    if |parts| != 3 then Some((0, 0, 0))
    else match (ParseInt(parts[0]), ParseInt(parts[1]), ParseInt(parts[2]))
      case (Some(h), Some(m), Some(s)) => Some((h, m, s))
      case _ => None
  }

  /** `QTime.toString("HH:mm:ss")`. */
  function FormatTime(h: nat, m: nat, s: nat): string {
    Pad2(h) + ":" + Pad2(m) + ":" + Pad2(s)
  }

  /** A time saved by the form loads back as the same hours, minutes and seconds. */
  lemma TimePartsOfFormatTime(h: nat, m: nat, s: nat)
    ensures TimeParts(FormatTime(h, m, s)) == Some((h, m, s))
  {
    var (a, b, c) := (Pad2(h), Pad2(m), Pad2(s));
    ParseNatOfPad2(h);
    ParseNatOfPad2(m);
    ParseNatOfPad2(s);
    ParseIntOfDigits(a);
    ParseIntOfDigits(b);
    ParseIntOfDigits(c);
    NoColonInDigits(a);
    NoColonInDigits(b);
    NoColonInDigits(c);
    SplitThree(a, b, c, ':');
  }

  lemma NoColonInDigits(s: string)
    requires AllDigits(s)
    ensures ':' !in s
  {
    forall i | 0 <= i < |s| ensures s[i] != ':' {
      assert IsDigit(s[i]);
    }
  }

  /** The stored text "nan" of a missing time has one part and loads as midnight. */
  lemma MissingTimeLoadsAsMidnight()
    ensures TimeParts(StrOf(Missing)) == Some((0, 0, 0))
  {
    SplitNoSeparator("nan", ':');
  }

  /** The first row whose column `c` reads as `value`. */
  function FirstMatch(t: Table, c: string, value: string): (k: Option<nat>)
    requires WellFormed(t) && c in t.columns
    ensures k.Some? ==> (k.value < |t.rows| && StrOf(At(t, k.value, c)) == value
      && forall j | 0 <= j < k.value :: StrOf(At(t, j, c)) != value)
    ensures k.None? ==> forall j | 0 <= j < |t.rows| :: StrOf(At(t, j, c)) != value
  {
    FirstMatchFrom(t, c, value, 0)
  }

  function FirstMatchFrom(t: Table, c: string, value: string, from: nat): (k: Option<nat>)
    requires WellFormed(t) && c in t.columns && from <= |t.rows|
    requires forall j | 0 <= j < from :: StrOf(At(t, j, c)) != value
    ensures k.Some? ==> (k.value < |t.rows| && StrOf(At(t, k.value, c)) == value
      && forall j | 0 <= j < k.value :: StrOf(At(t, j, c)) != value)
    ensures k.None? ==> forall j | 0 <= j < |t.rows| :: StrOf(At(t, j, c)) != value
    decreases |t.rows| - from
  {
    if from == |t.rows| then None
    else if StrOf(At(t, from, c)) == value then Some(from)
    else FirstMatchFrom(t, c, value, from + 1)
  }

  datatype Loaded =
    | ReadError                     // "Could not read samples_meta.csv"
    | NoSampleIdColumn
    | NotFound
    | Fields(row: nat, date: string, time: Option<(int, int, int)>, texts: map<string, string>)

  const FormTextColumns: seq<string> := ["temperature_c", "pressure_kpa", "latitude", "longitude", "count", "sample_name"]

  /** `str(r.get(c, default))`: the cell's `str` form, or the default when there is no such column. */
  function GetText(t: Table, k: nat, c: string, default: string): string
    requires WellFormed(t) && k < |t.rows|
  {
    if c in t.columns then StrOf(At(t, k, c)) else default
  }

  /**
   * `open_for_edit`: finds the first row of the sample and returns the texts
   * the form takes from it; the page then edits that id. A missing file is
   * first created with the header only.
   */
  function OpenForEdit(file: FileRead, sid: string): (r: (Loaded, Option<Mode>))
    requires ValidRead(file)
    ensures r.1.Some? <==> r.0.Fields?
    ensures r.1.Some? ==> r.1.value == Mode(true, Some(sid))
    ensures file.Absent? ==> r.0 == NotFound
    ensures file.Unreadable? ==> r.0 == ReadError
    ensures file.Parsed? ==> (r.0 == NoSampleIdColumn <==> "sample_id" !in file.table.columns)
    ensures file.Parsed? && "sample_id" in file.table.columns ==>
      (r.0 == NotFound <==> forall k | 0 <= k < |file.table.rows| :: StrOf(At(file.table, k, "sample_id")) != sid)
    ensures r.0.Fields? ==>
      var t := file.table;
      && file.Parsed? && r.0.row < |t.rows| && StrOf(At(t, r.0.row, "sample_id")) == sid
      && (forall j | 0 <= j < r.0.row :: StrOf(At(t, j, "sample_id")) != sid)
      && r.0.texts.Keys == Elements(FormTextColumns)
      && (forall c | c in r.0.texts :: r.0.texts[c] == GetText(t, r.0.row, c, ""))
      && r.0.date == GetText(t, r.0.row, "date", "")
      && r.0.time == TimeParts(GetText(t, r.0.row, "time", "00:00:00"))
  {
    match file
    case Absent => (NotFound, None)
    case Unreadable => (ReadError, None)
    case Parsed(t) =>
      if "sample_id" !in t.columns then (NoSampleIdColumn, None)
      else match FirstMatch(t, "sample_id", sid)
        case None => (NotFound, None)
        case Some(k) =>
          var texts := map c | c in Elements(FormTextColumns) :: GetText(t, k, c, "");
          (Fields(k, GetText(t, k, "date", ""), TimeParts(GetText(t, k, "time", "00:00:00")), texts), Some(Mode(true, Some(sid))))
  }

  /** A blank stored field is read as NaN and loads into the form as the text "nan". */
  lemma BlankFieldLoadsAsNan(t: Table, sid: string, k: nat, c: string)
    requires WellFormed(t) && "sample_id" in t.columns && k < |t.rows|
    requires StrOf(At(t, k, "sample_id")) == sid && forall j | 0 <= j < k :: StrOf(At(t, j, "sample_id")) != sid
    requires c in FormTextColumns && c in t.columns && At(t, k, c) == Missing
    ensures OpenForEdit(Parsed(t), sid).0.Fields?
    ensures OpenForEdit(Parsed(t), sid).0.texts[c] == "nan"
  {
    var r := OpenForEdit(Parsed(t), sid);
    assert r.0 != NotFound && r.0 != NoSampleIdColumn;
    assert r.0.Fields?;
    assert StrOf(At(t, r.0.row, "sample_id")) == sid;
    assert r.0.row == k;
    assert c in r.0.texts;
    assert r.0.texts[c] == GetText(t, k, c, "") == StrOf(Missing);
  }
}
