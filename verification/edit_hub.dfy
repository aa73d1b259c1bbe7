/**
 * The edit hub: the metadata table with a search box, picking one row to
 * hand its `sample_id` to the metadata editor, the label editor or the
 * attach flow, and deleting the selected rows together with their label
 * files.
 *
 * The search keeps the index labels of the loaded table, so the frame behind
 * the view is addressed by label while the selection speaks in positions.
 * A `View` therefore keeps the loaded table and the labels of the rows shown;
 * the labels of a freshly read table are its positions.
 */
module EditHub {
  import opened Options
  import opened Strings
  import opened Seqs
  import opened Tables
  import opened TableModel

  /** The loaded metadata (`self._df`) and, in display order, the labels of the rows the view shows. */
  datatype View = View(full: Table, shown: seq<nat>)

  predicate Increasing(s: seq<nat>) {
    forall i, j | 0 <= i < j < |s| :: s[i] < s[j]
  }

  predicate ViewValid(v: View) {
    && WellFormed(v.full) && v.full.columns == MetaViewColumns
    && Increasing(v.shown)
    && forall i | 0 <= i < |v.shown| :: v.shown[i] < |v.full.rows|
  }

  /** The frame the table model holds, addressed by position. */
  function Frame(v: View): (t: Table)
    requires ViewValid(v)
    ensures WellFormed(t) && t.columns == MetaViewColumns && |t.rows| == |v.shown|
  {
    Pick(v.full, v.shown)
  }

  /** Positions a selection may name: rows of the view. */
  predicate SelectionValid(v: View, sel: seq<nat>) {
    forall i | 0 <= i < |sel| :: sel[i] < |v.shown|
  }

  // ------------------------------------------------------------ filtering

  /** Whether row `k` matches: its `sample_id` or `sample_name` is text containing `q` (missing never matches). */
  predicate Hit(t: Table, k: nat, q: string)
    requires WellFormed(t) && t.columns == MetaViewColumns && k < |t.rows|
  {
    CellContains(At(t, k, "sample_id"), q, TextOnly) || CellContains(At(t, k, "sample_name"), q, TextOnly)
  }

  /** The labels from `k` on whose rows match, in order. */
  function HitsFrom(t: Table, q: string, k: nat): (r: seq<nat>)
    requires WellFormed(t) && t.columns == MetaViewColumns && k <= |t.rows|
    ensures Increasing(r)
    ensures forall i | 0 <= i < |r| :: k <= r[i] < |t.rows|
    ensures forall m | k <= m < |t.rows| :: m in r <==> Hit(t, m, q)
    decreases |t.rows| - k
  {
    if k == |t.rows| then [] else (if Hit(t, k, q) then [k] else []) + HitsFrom(t, q, k + 1)
  }

  /** Every label of the table, in order. */
  function AllLabels(n: nat): (r: seq<nat>)
    ensures |r| == n && forall i | 0 <= i < n :: r[i] == i
  {
    seq(n, i requires 0 <= i < n => i)
  }

  /**
   * `_apply_filter`: an empty query shows every row; otherwise the rows whose
   * id or name contains the stripped, lower-cased query. The labels are kept.
   */
  function ApplyFilter(full: Table, text: string): (v: View)
    requires WellFormed(full) && full.columns == MetaViewColumns
    ensures ViewValid(v) && v.full == full
    ensures Query(text) == "" ==> v.shown == AllLabels(|full.rows|)
    ensures Query(text) != "" ==> forall k | 0 <= k < |full.rows| :: k in v.shown <==> Hit(full, k, Query(text))
  {
    var q := Query(text);
    View(full, if q == "" then AllLabels(|full.rows|) else HitsFrom(full, q, 0))
  }

  /** `_reload`: the metadata file normalised to the six view columns (empty when unreadable), then filtered. */
  function Reload(file: FileRead, text: string): (v: View)
    requires ValidRead(file)
    ensures ViewValid(v)
    ensures !file.Parsed? ==> v.full.rows == [] && v.shown == []
    ensures file.Parsed? ==> |v.full.rows| == |file.table.rows| && forall k, c | 0 <= k < |v.full.rows| && c in MetaViewColumns ::
      At(v.full, k, c) == (if c in file.table.columns then At(file.table, k, c) else Blank)
  {
    ApplyFilter(LoadWithSchema(file, MetaViewColumns), text)
  }

  /** With an empty query the view is the whole loaded table, label for position. */
  lemma UnfilteredFrameIsFull(full: Table, text: string)
    requires WellFormed(full) && full.columns == MetaViewColumns && Query(text) == ""
    ensures Frame(ApplyFilter(full, text)) == full
  {
  }

  /** The filtered frame holds exactly the rows the shared search keeps, in the same order. */
  lemma FilteredFrameIsSearch(full: Table, text: string)
    requires WellFormed(full) && full.columns == MetaViewColumns && Query(text) != ""
    ensures Frame(ApplyFilter(full, text)) == Search(full, "sample_id", "sample_name", Query(text), TextOnly)
  {
    HitsFromIsFilter(full, Query(text), 0);
    assert full.rows[0..] == full.rows;
  }

  lemma {:induction false} HitsFromIsFilter(t: Table, q: string, k: nat)
    requires WellFormed(t) && t.columns == MetaViewColumns && k <= |t.rows|
    ensures Pick(t, HitsFrom(t, q, k)).rows == Filter(t.rows[k..], HitTest(t.columns, "sample_id", "sample_name", q, TextOnly))
    decreases |t.rows| - k
  {
    if k < |t.rows| {
      HitsFromIsFilter(t, q, k + 1);
      HitsFromStep(t, q, k);
      var s := t.rows[k..];
      assert s[0] == t.rows[k] && s[1..] == t.rows[k + 1..];
    }
  }

  /** One step of `HitsFrom`, seen through `Pick`: the row at `k` when it matches, then the later matches. */
  lemma HitsFromStep(t: Table, q: string, k: nat)
    requires WellFormed(t) && t.columns == MetaViewColumns && k < |t.rows|
    ensures var p := HitTest(t.columns, "sample_id", "sample_name", q, TextOnly);
      Pick(t, HitsFrom(t, q, k)).rows == (if p(t.rows[k]) then [t.rows[k]] else []) + Pick(t, HitsFrom(t, q, k + 1)).rows
  {
    HitIsHitTest(t, k, q);
    var head: seq<nat> := if Hit(t, k, q) then [k] else [];
    var rest := HitsFrom(t, q, k + 1);
    assert HitsFrom(t, q, k) == head + rest;
    PickConcat(t, head, rest);
    assert Pick(t, head).rows == if Hit(t, k, q) then [t.rows[k]] else [];
  }

  lemma HitIsHitTest(t: Table, k: nat, q: string)
    requires WellFormed(t) && t.columns == MetaViewColumns && k < |t.rows|
    ensures HitTest(t.columns, "sample_id", "sample_name", q, TextOnly)(t.rows[k]) == Hit(t, k, q)
  {
    assert "sample_id" in t.columns && "sample_name" in t.columns;
  }

  lemma PickConcat(t: Table, a: seq<nat>, b: seq<nat>)
    requires WellFormed(t) && forall i | 0 <= i < |a| :: a[i] < |t.rows|
    requires forall i | 0 <= i < |b| :: b[i] < |t.rows|
    ensures Pick(t, a + b).rows == Pick(t, a).rows + Pick(t, b).rows
  {
  }

  // ------------------------------------------------------------ selection

  /** How the frame is addressed: by index label, as `df_view.loc[r, ...]` does, or by position. */
  datatype Lookup = ByLabel | ByPosition

  /** The label of the loaded row that selection position `r` reaches, or `None` for a `KeyError`. */
  function RowOf(v: View, r: nat, how: Lookup): (l: Option<nat>)
    requires ViewValid(v) && r < |v.shown|
    ensures l.Some? ==> l.value < |v.full.rows|
    ensures how == ByPosition ==> l == Some(v.shown[r])
    ensures how == ByLabel ==> (l.Some? <==> r in v.shown) && (l.Some? ==> l.value == r)
  {
    match how
    case ByPosition => Some(v.shown[r])
    case ByLabel => if r in v.shown then Some(r) else None
  }

  datatype Selected = NoSelection | Chosen(sid: string) | LookupError

  /** `_selected_sample_id`: `str` of the first selected row's `sample_id` (a missing id reads "nan"). */
  function SelectedSampleId(v: View, sel: seq<nat>, how: Lookup): (r: Selected)
    requires ViewValid(v) && SelectionValid(v, sel)
    ensures |sel| == 0 <==> r == NoSelection
    ensures r.LookupError? <==> |sel| > 0 && RowOf(v, sel[0], how).None?
    ensures r.Chosen? ==> r.sid == StrOf(At(v.full, RowOf(v, sel[0], how).value, "sample_id"))
  {
    if |sel| == 0 then NoSelection
    else
      match RowOf(v, sel[0], how)
      case None => LookupError
      case Some(l) => Chosen(StrOf(At(v.full, l, "sample_id")))
  }

  /** `_emit_edit_meta`, `_emit_edit_labels`, `_emit_add_to_meta`: the id sent, only when non-empty. */
  function Emitted(s: Selected): (r: Option<string>)
    ensures r.Some? <==> s.Chosen? && s.sid != ""
    ensures r.Some? ==> r.value == s.sid
  {
    if s.Chosen? && s.sid != "" then Some(s.sid) else None
  }

  /** Read by position, the chosen id is the id of the row the user sees selected. */
  lemma SelectedIsShownRow(v: View, sel: seq<nat>)
    requires ViewValid(v) && SelectionValid(v, sel) && |sel| > 0
    ensures SelectedSampleId(v, sel, ByPosition) == Chosen(StrOf(At(Frame(v), sel[0], "sample_id")))
  {
    AtPicked(v.full, v.shown, sel[0], "sample_id");
  }

  /** A text id in the selected row is what the table model displays in that row's first column, and is what is sent. */
  lemma EmittedIdIsDisplayed(v: View, sel: seq<nat>)
    requires ViewValid(v) && SelectionValid(v, sel) && |sel| > 0
    requires At(Frame(v), sel[0], "sample_id").Text? && At(Frame(v), sel[0], "sample_id").s != ""
    ensures var shown := Data(Frame(v), ModelIndex(sel[0], 0), DisplayRole);
      shown.TextValue? && Emitted(SelectedSampleId(v, sel, ByPosition)) == Some(shown.text)
  {
    SelectedIsShownRow(v, sel);
    assert At(Frame(v), sel[0], "sample_id") == Frame(v).rows[sel[0]][0];
  }

  /** The two lookups agree on every position exactly when the view shows a leading run of rows, label for position. */
  lemma LookupsAgreeIffUnshifted(v: View)
    requires ViewValid(v)
    ensures (forall r | 0 <= r < |v.shown| :: RowOf(v, r, ByLabel) == RowOf(v, r, ByPosition))
      <==> v.shown == AllLabels(|v.shown|)
  {
    if forall r | 0 <= r < |v.shown| :: RowOf(v, r, ByLabel) == RowOf(v, r, ByPosition) {
      forall r | 0 <= r < |v.shown| ensures v.shown[r] == r {
        assert RowOf(v, r, ByLabel) == Some(v.shown[r]);
      }
    }
    if v.shown == AllLabels(|v.shown|) {
      forall r | 0 <= r < |v.shown| ensures RowOf(v, r, ByLabel) == RowOf(v, r, ByPosition) {
        assert v.shown[r] == r;
      }
    }
  }

  /** A view reloaded with an empty search addresses the same rows both ways. */
  lemma UnfilteredLookupsAgree(file: FileRead, text: string, r: nat)
    requires ValidRead(file) && Query(text) == ""
    requires r < |Reload(file, text).shown|
    ensures RowOf(Reload(file, text), r, ByLabel) == RowOf(Reload(file, text), r, ByPosition)
  {
    LookupsAgreeIffUnshifted(Reload(file, text));
  }

  /** Three rows: the first has no id or name, the others "x" and "xy". */
  function Sample(): (t: Table)
    ensures WellFormed(t) && t.columns == MetaViewColumns && |t.rows| == 3
  {
    MetaViewColumnsDistinct();
    Table(MetaViewColumns, [
      [Missing, Missing, Blank, Blank, Blank, Blank],
      [Text("x"), Text("a"), Blank, Blank, Blank, Blank],
      [Text("xy"), Text("b"), Blank, Blank, Blank, Blank]])
  }

  /**
   * Searching "x" over `Sample()` shows labels [1, 2]. Selecting the second
   * shown row ("xy") reads label 1 and hands over "x"; selecting the first
   * raises a `KeyError`, as label 0 is filtered out.
   */
  lemma LabelLookupMisreads()
    ensures ApplyFilter(Sample(), "x").shown == [1, 2]
    ensures SelectedSampleId(ApplyFilter(Sample(), "x"), [1], ByLabel) == Chosen("x")
    ensures SelectedSampleId(ApplyFilter(Sample(), "x"), [1], ByPosition) == Chosen("xy")
    ensures SelectedSampleId(ApplyFilter(Sample(), "x"), [0], ByLabel) == LookupError
  {
    SampleShown();
    SampleIds();
  }

  lemma SampleIds()
    ensures StrOf(At(Sample(), 1, "sample_id")) == "x" && StrOf(At(Sample(), 2, "sample_id")) == "xy"
  {
    assert ColumnIndex(MetaViewColumns, "sample_id") == 0;
  }

  lemma SampleShown()
    ensures ApplyFilter(Sample(), "x").shown == [1, 2]
  {
    var t := Sample();
    StripNoSpace("x");
    assert Query("x") == "x";
    SampleHits();
    assert HitsFrom(t, "x", 3) == [];
    assert HitsFrom(t, "x", 2) == [2];
    assert HitsFrom(t, "x", 1) == [1, 2];
  }

  lemma SampleHits()
    ensures !Hit(Sample(), 0, "x") && Hit(Sample(), 1, "x") && Hit(Sample(), 2, "x")
  {
    var t := Sample();
    assert ColumnIndex(MetaViewColumns, "sample_id") == 0;
    assert ColumnIndex(MetaViewColumns, "sample_name") == 1;
    assert Lower("x") == "x" && Lower("xy") == "xy";
    assert OccursAt("x", "x", 0) && OccursAt("xy", "x", 0);
  }

  // ------------------------------------------------------------- deleting

  /** What a delete does: the label paths it unlinks and the metadata it writes (then reloads), if any. */
  datatype Deletion = Deletion(unlinked: set<string>, written: Option<Table>)

  /** The ids of the selected rows, `None` when a lookup raises. */
  function SelectedIds(v: View, sel: seq<nat>, how: Lookup): (r: Option<set<string>>)
    requires ViewValid(v) && SelectionValid(v, sel)
    ensures r.None? <==> exists i | 0 <= i < |sel| :: RowOf(v, sel[i], how).None?
    ensures r.Some? ==> forall s :: s in r.value <==>
      exists i | 0 <= i < |sel| :: s == StrOf(At(v.full, RowOf(v, sel[i], how).value, "sample_id"))
  {
    if exists i | 0 <= i < |sel| :: RowOf(v, sel[i], how).None? then None
    else Some(set i | 0 <= i < |sel| :: StrOf(At(v.full, RowOf(v, sel[i], how).value, "sample_id")))
  }

  /** The label paths of the selected rows that are non-blank after stripping (a missing path reads "nan"). */
  function SelectedPaths(v: View, sel: seq<nat>, how: Lookup): (r: set<string>)
    requires ViewValid(v) && SelectionValid(v, sel)
    requires forall i | 0 <= i < |sel| :: RowOf(v, sel[i], how).Some?
    ensures forall p :: p in r <==> (Strip(p) != "" &&
      exists i | 0 <= i < |sel| :: p == StrOf(At(v.full, RowOf(v, sel[i], how).value, "labels_csv")))
  {
    set i, p | 0 <= i < |sel| && p == StrOf(At(v.full, RowOf(v, sel[i], how).value, "labels_csv")) && Strip(p) != "" :: p
  }

  /** Whether a stored row survives the delete: its id, read through `astype(str)`, is not one of the deleted ids. */
  predicate Survives(cols: seq<string>, sids: set<string>, row: Row) {
    |row| == |cols| && "sample_id" in cols && StrOf(row[ColumnIndex(cols, "sample_id")]) !in sids
  }

  function SurvivesTest(cols: seq<string>, sids: set<string>): Row -> bool {
    (row: Row) => Survives(cols, sids, row)
  }

  /** `df_all[~df_all["sample_id"].astype(str).isin(sids)]`. */
  function DropSamples(t: Table, sids: set<string>): (r: Table)
    requires WellFormed(t) && "sample_id" in t.columns
    ensures WellFormed(r) && r.columns == t.columns
    ensures IsSubsequence(r.rows, t.rows)
    ensures forall k | 0 <= k < |t.rows| :: t.rows[k] in r.rows <==> StrOf(At(t, k, "sample_id")) !in sids
    ensures forall row | row in r.rows :: StrOf(row[ColumnIndex(t.columns, "sample_id")]) !in sids
  {
    var rows := Filter(t.rows, SurvivesTest(t.columns, sids));
    FilterIsSubsequence(t.rows, SurvivesTest(t.columns, sids));
    assert forall k | 0 <= k < |rows| :: rows[k] in t.rows;
    Table(t.columns, rows)
  }

  /** The drop keeps every copy of a surviving row: a boolean mask never merges repeats. */
  lemma DropKeepsCopies(t: Table, sids: set<string>)
    requires WellFormed(t) && "sample_id" in t.columns
    ensures var r := DropSamples(t, sids);
      forall k | 0 <= k < |t.rows| ::
        multiset(r.rows)[t.rows[k]] == (if StrOf(At(t, k, "sample_id")) !in sids then multiset(t.rows)[t.rows[k]] else 0)
  {
    FilterCounts(t.rows, SurvivesTest(t.columns, sids));
  }

  /**
   * `_delete_selected`: with a selection and a confirmed question, unlinks the
   * selected label files, then rereads the metadata file and writes it back
   * without the selected ids. An unreadable file ends the action after the
   * unlinks; a file without `sample_id` raises before writing.
   */
  function DeleteSelected(v: View, sel: seq<nat>, how: Lookup, confirmed: bool, meta: FileRead): (r: Deletion)
    requires ViewValid(v) && SelectionValid(v, sel) && ValidRead(meta)
    ensures |sel| == 0 || !confirmed || SelectedIds(v, sel, how).None? ==> r == Deletion({}, None)
    ensures |sel| > 0 && confirmed && SelectedIds(v, sel, how).Some? ==>
      && r.unlinked == SelectedPaths(v, sel, how)
      && (r.written.Some? <==> meta.Parsed? && "sample_id" in meta.table.columns)
      && (r.written.Some? ==> r.written.value == DropSamples(meta.table, SelectedIds(v, sel, how).value))
  {
    if |sel| == 0 || !confirmed then Deletion({}, None)
    else
      match SelectedIds(v, sel, how)
      case None => Deletion({}, None)
      case Some(sids) =>
        var unlinked := SelectedPaths(v, sel, how);
        if meta.Parsed? && "sample_id" in meta.table.columns then Deletion(unlinked, Some(DropSamples(meta.table, sids)))
        else Deletion(unlinked, None)
  }

  /** After deleting the selected row, no stored row carries its id and every other sample's rows are kept. */
  lemma DeleteRemovesExactlySelected(v: View, r: nat, meta: FileRead)
    requires ViewValid(v) && r < |v.shown| && ValidRead(meta) && meta.Parsed? && "sample_id" in meta.table.columns
    ensures var d := DeleteSelected(v, [r], ByPosition, true, meta);
      var sid := StrOf(At(Frame(v), r, "sample_id"));
      && d.written.Some?
      && (forall k | 0 <= k < |meta.table.rows| :: meta.table.rows[k] in d.written.value.rows <==> StrOf(At(meta.table, k, "sample_id")) != sid)
  {
    AtPicked(v.full, v.shown, r, "sample_id");
    DeleteOne(v, r, ByPosition, meta.table);
  }

  /** The file written after a delete, reloaded, shows the surviving rows under the same search. */
  lemma DeleteThenReload(v: View, sel: seq<nat>, how: Lookup, meta: FileRead, text: string)
    requires ViewValid(v) && SelectionValid(v, sel) && ValidRead(meta)
    requires DeleteSelected(v, sel, how, true, meta).written.Some?
    ensures var w := DeleteSelected(v, sel, how, true, meta).written.value;
      var after := Reload(Parsed(w), text);
      && |after.full.rows| == |w.rows|
      && forall k | 0 <= k < |w.rows| :: StrOf(At(after.full, k, "sample_id")) !in SelectedIds(v, sel, how).value
  {
    var w := DeleteSelected(v, sel, how, true, meta).written.value;
    var after := Reload(Parsed(w), text);
    forall k | 0 <= k < |w.rows| ensures StrOf(At(after.full, k, "sample_id")) !in SelectedIds(v, sel, how).value {
      assert w.rows[k] in w.rows;
      assert At(after.full, k, "sample_id") == At(w, k, "sample_id");
    }
  }

  /** Deleting one selected row whose lookup succeeds drops exactly the id that lookup reads. */
  lemma DeleteOne(v: View, r: nat, how: Lookup, t: Table)
    requires ViewValid(v) && r < |v.shown| && RowOf(v, r, how).Some? && WellFormed(t) && "sample_id" in t.columns
    ensures DeleteSelected(v, [r], how, true, Parsed(t)).written
      == Some(DropSamples(t, {StrOf(At(v.full, RowOf(v, r, how).value, "sample_id"))}))
  {
    var sid := StrOf(At(v.full, RowOf(v, r, how).value, "sample_id"));
    var ids := SelectedIds(v, [r], how);
    assert [r][0] == r;
    assert ids.Some?;
    assert sid in ids.value;
    assert forall s | s in ids.value :: s == sid;
    assert ids.value == {sid};
  }

  /**
   * Over `Sample()` searched for "x", deleting the second shown row ("xy")
   * by label removes the rows of "x" and keeps "xy"; by position it removes "xy".
   */
  lemma LabelDeleteMisses()
    ensures ApplyFilter(Sample(), "x").shown == [1, 2]
    ensures var d := DeleteSelected(ApplyFilter(Sample(), "x"), [1], ByLabel, true, Parsed(Sample()));
      d.written.Some? && Sample().rows[1] !in d.written.value.rows && Sample().rows[2] in d.written.value.rows
    ensures var d := DeleteSelected(ApplyFilter(Sample(), "x"), [1], ByPosition, true, Parsed(Sample()));
      d.written.Some? && Sample().rows[1] in d.written.value.rows && Sample().rows[2] !in d.written.value.rows
  {
    SampleShown();
    SampleDeleteByLabel();
    SampleDeleteByPosition();
    SampleDrops();
  }

  lemma SampleDeleteByLabel()
    ensures ApplyFilter(Sample(), "x").shown == [1, 2]
    ensures DeleteSelected(ApplyFilter(Sample(), "x"), [1], ByLabel, true, Parsed(Sample())).written
      == Some(DropSamples(Sample(), {"x"}))
  {
    var v := ApplyFilter(Sample(), "x");
    SampleShown();
    SampleIds();
    assert "sample_id" in Sample().columns;
    assert RowOf(v, 1, ByLabel) == Some(1);
    DeleteOne(v, 1, ByLabel, Sample());
  }

  lemma SampleDeleteByPosition()
    ensures ApplyFilter(Sample(), "x").shown == [1, 2]
    ensures DeleteSelected(ApplyFilter(Sample(), "x"), [1], ByPosition, true, Parsed(Sample())).written
      == Some(DropSamples(Sample(), {"xy"}))
  {
    var v := ApplyFilter(Sample(), "x");
    SampleShown();
    SampleIds();
    assert "sample_id" in Sample().columns;
    assert RowOf(v, 1, ByPosition) == Some(2);
    DeleteOne(v, 1, ByPosition, Sample());
  }

  lemma SampleDrops()
    ensures "sample_id" in Sample().columns
    ensures Sample().rows[1] !in DropSamples(Sample(), {"x"}).rows && Sample().rows[2] in DropSamples(Sample(), {"x"}).rows
    ensures Sample().rows[1] in DropSamples(Sample(), {"xy"}).rows && Sample().rows[2] !in DropSamples(Sample(), {"xy"}).rows
  {
    SampleIds();
  }
}
