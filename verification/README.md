# Audio labeler: the table layer

The audio labeler is a desktop application. It keeps sample metadata, label
files and sample types as CSV tables and shows them in editable Qt tables.
This project models the pure decisions underneath those pages as Dafny
datatypes and functions, and proves what the pages promise about them.

The modelled parts are:

- the editable table adapter (`PandasModel`): counts, cell text and
  alignment, edits with numeric coercion, appending a row, removing rows;
- the schema normalisation repeated at every CSV load: missing columns
  become `""`, columns are reordered to a fixed list, extras are dropped,
  and a failed read gives an empty table;
- the label editor:
  - marks taken from the position readout, and building a label row from
    them;
  - reloading the label file, and back-linking the label file into the
    metadata;
  - the class list, the time readout, the slider click and the click-to-seek;
- the new-sample page: appending, the upsert by `sample_id`, the submit
  rules, and reading a stored time back;
- the sample-types page: seeding, loading and importing, the next-ID rule
  and deleting;
- the CSV reports page: the metadata view, the label listing, both searches,
  and what the two exports copy and write;
- the edit hub: reload, the search filter, the selected sample id, and the
  delete;
- the labels picker: the scan of a sample's label files, the filter, and
  opening a file.

A table is `Table(columns, rows)`. A row holds one `Cell` per column:
`Missing` (pandas' NaN), `Text(s)`, `Int(i)` or `Float(d)`, where `d` is an
exact decimal. Two renderings exist, as in
the application:

- `Display` shows `Missing` as `""`. This is the adapter's cell text.
- `StrOf` shows `Missing` as `"nan"`. This is Python's `str` and
  `astype(str)`, used for matching ids.

A CSV read is `Absent`, `Unreadable` or `Parsed(table)`. A directory
listing is a sequence of names. Clocks, uuids, dialogs and the answers to
questions are parameters.

Modules follow the source files:

| module | file |
|---|---|
| `Tables` | table, cell, read result, normalisation, search, row append and assignment |
| `TableModel` | `code/ui/widgets/pandas_model.py` |
| `LabelEditor` | `code/ui/pages/label_editor.py` |
| `NewSample` | `code/ui/pages/new_sample.py` |
| `SampleTypes` | `code/ui/pages/sample_types.py` |
| `CsvReports` | `code/ui/pages/csv_reports.py` |
| `EditHub` | `code/ui/pages/edit_hub.py` |
| `LabelsPicker` | `code/ui/pages/labels_picker.py` |
| `Options`, `Strings`, `Seqs`, `Sorting`, `Paths` | shared helpers: `Option`, Python string operations, filtering and removal, sorting, path names |

## Model

| member | source | states |
|---|---|---|
| TableModel.Data | code/ui/widgets/pandas_model.py:20-35 | An invalid index gives no value. Display and edit text is `""` for a missing cell and `str` of the value for any other cell. Alignment is right exactly when the lower-cased column name is `id`, `value` or `count`. Other roles give no value. |
| TableModel.SetData | code/ui/widgets/pandas_model.py:49-61 | The edit is taken exactly for the edit role on a valid index; otherwise the table is unchanged. Only the addressed cell changes. On a numeric column whose text parses it holds the integer, stored as a float when the column holds floats (a float and otherwise NaN). Otherwise it holds the text. |
| TableModel.EditThenDisplay | code/ui/widgets/pandas_model.py:49-61 | After an edit, a numeric column shows the parsed integer's decimal text, followed by `.0` when the column holds floats. Any other edit shows the typed text. |
| TableModel.EditFloatColumnShowsPoint | code/ui/widgets/pandas_model.py:49-61 | `7` typed beside a NaN in a float `Value` column shows as `7.0`. |
| TableModel.InsertEmptyRow | code/ui/widgets/pandas_model.py:66-71 | Exactly one row is appended and earlier rows are unchanged. Without a default every cell is `""`. With one, each column takes the default's value, or NaN when the key is absent. An integer default in a float64 column is stored as a float, because the concatenated column stays float64. |
| TableModel.InsertedCellDisplay | code/ui/widgets/pandas_model.py:66-71 | An integer default shows as the integer followed by `.0` exactly when its column held floats. Any other default shows as itself. |
| TableModel.InsertKeepsFloatColumn | code/ui/widgets/pandas_model.py:66-71 | A float64 column stays float64 when the new row puts a number or NaN in it, so later edits there still store floats. |
| TableModel.RemoveRows | code/ui/widgets/pandas_model.py:73-78 | Removing distinct in-range positions in descending order leaves exactly the rows at the other positions, in their original order. The row count drops by the number of positions. |
| TableModel.RemoveRowsOrderIrrelevant | code/ui/widgets/pandas_model.py:73-78 | Two selections holding the same positions in any order remove the same rows. |
| TableModel.CountsBoundCells | code/ui/widgets/pandas_model.py:14-24 | For the top-level parent, an index addresses a cell exactly when it is valid and its row and column are below the row and column counts. |
| TableModel.InsertRaisesRowCount | code/ui/widgets/pandas_model.py:66-71 | Appending a row raises the row count by one and keeps the column count. |
| TableModel.RemoveLowersRowCount | code/ui/widgets/pandas_model.py:73-78 | Removing distinct positions lowers the row count by their number and keeps the column count. |
| Tables.Normalize | code/ui/pages/label_editor.py:503-507 | The columns become the schema exactly. Every row is kept. A schema column present in the input keeps its cells; a missing one is `""`. |
| Tables.NormalizeIdempotent | code/ui/pages/label_editor.py:503-507 | Normalising twice to the same schema equals normalising once. |
| Tables.LoadWithSchema | code/ui/pages/label_editor.py:498-507 | A failed read gives an empty table with the schema's columns. A parsed file keeps its row count, and each schema column holds the file's cell or `""`. |
| Tables.Search | code/ui/pages/csv_reports.py:195-197 | The result keeps a row exactly when either searched column contains the query, in the original order, as a subsequence of the input. Every copy of a matching row is kept. |
| Tables.SearchIdempotent | code/ui/pages/csv_reports.py:195-197 | Running the same search on its own result changes nothing. |
| LabelEditor.ParseFormatSeconds | code/ui/pages/label_editor.py:407 | The position text with three decimals reads back as the same number of milliseconds. |
| LabelEditor.FormatSecondsInjective | code/ui/pages/label_editor.py:407 | Two different positions never show the same position text. |
| LabelEditor.MarkOfPositionText | code/ui/pages/label_editor.py:458-463 | A mark copied from the position text parses back to the position in milliseconds; an empty mark is "no mark". |
| LabelEditor.OnPositionChanged | code/ui/pages/label_editor.py:406-407 | The new position is recorded. Everything else stays: the marks, the table, the bound sample, the label file and the audio path. |
| LabelEditor.MarkStart | code/ui/pages/label_editor.py:448-449 | The start mark becomes the current position. Everything else stays: the end mark, the position, the table, the bound sample and both paths. |
| LabelEditor.MarkEnd | code/ui/pages/label_editor.py:451-452 | The end mark becomes the current position. Everything else stays: the start mark, the position, the table, the bound sample and both paths. |
| LabelEditor.AddRowFromMarks | code/ui/pages/label_editor.py:454-482 | Without a table or sample id nothing happens. A missing or unparseable mark leaves the editor unchanged and reports the problem. With two good marks one row is appended and both marks are cleared. |
| LabelEditor.AddedRowIsOrdered | code/ui/pages/label_editor.py:463-475 | The stored start reads back as the smaller mark and the stored end as the larger one. The row carries the bound sample id and the stripped class. |
| LabelEditor.LabelRowReadsBack | code/ui/pages/label_editor.py:470-480 | The new row's start and end are the two marks with three decimals and read back as them. It carries the bound sample id, the audio path or `""`, the stripped class and empty notes. Earlier rows are unchanged. |
| LabelEditor.DeleteRows | code/ui/pages/label_editor.py:484-491 | Without a table or a selection nothing changes. Otherwise exactly the selected rows are removed. |
| LabelEditor.ReloadLabels | code/ui/pages/label_editor.py:494-507 | Without a label path nothing changes. Otherwise the table has exactly the label columns, and a failed read gives no rows. |
| LabelEditor.ReloadKeepsFileCells | code/ui/pages/label_editor.py:503-507 | After a reload every label column holds the file's cell, or `""` where the file lacks the column. |
| LabelEditor.SyncMetaLink | code/ui/pages/label_editor.py:531-546 | Nothing is written without a sample id, a label path or a readable metadata file. A write sets `labels_csv` only on rows whose id matches, and every other cell is unchanged. No matching row means no write and no appended row. |
| LabelEditor.TypeColumn | code/ui/pages/label_editor.py:555 | The chosen column is the first one whose stripped, lower-cased name is `type`. None is chosen exactly when no column has that name. |
| LabelEditor.ClassOptions | code/ui/pages/label_editor.py:549-563 | The list starts with `""` and the rest is sorted. It is exactly `[""]` when the file is absent, unreadable, or has no type column. |
| LabelEditor.ClassValues | code/ui/pages/label_editor.py:557 | A value is offered exactly when it is the text of a non-missing cell of the type column. |
| LabelEditor.ClassOptionsStrictForText | code/ui/pages/label_editor.py:557-559 | When the type column holds no numbers, the options after `""` are strictly increasing, so none is repeated. |
| LabelEditor.ClockRoundTrip | code/ui/pages/label_editor.py:427-431 | The readout of a position is minutes zero-padded to at least two digits, a colon and two-digit seconds. It reads back as the whole seconds: minutes from the seconds div 60, seconds from the seconds mod 60. |
| LabelEditor.ParseClockNeedsPaddedMinutes | code/ui/pages/label_editor.py:427-431 | `5:07` is not in the readout's format and does not read back; `05:07` reads as 307 seconds. |
| LabelEditor.SliderValue | code/ui/pages/label_editor.py:55-58 | The click is clamped to the widget and scaled into the range. The value always lies between the slider's minimum and maximum. A click at or before the left edge gives the minimum; one at or past the right edge gives the maximum. |
| LabelEditor.ClickSeek | code/ui/pages/label_editor.py:433-445 | Nothing seeks without a loaded waveform. Otherwise the position is never negative, is 0 for a click at or left of 0, and is otherwise the clicked time in seconds times 1000, rounded down. |
| NewSample.AppendMetaRow | code/ui/pages/new_sample.py:192-205 | The result has exactly the metadata columns. Stored rows are kept and one last row is added, `""` in every column except the given fields. |
| NewSample.AppendKeepsStoredRows | code/ui/pages/new_sample.py:199-204 | Every stored cell of a metadata column reads the same after the append. |
| NewSample.PrepareForUpdate | code/ui/pages/new_sample.py:207-220 | Missing metadata columns are added after the existing ones, and every cell of an added column is `""`. Existing columns are neither reordered nor dropped. A failed read gives an empty table with the metadata columns. |
| NewSample.SchemaFrameUnchanged | code/ui/pages/new_sample.py:210-220 | The empty frame used when the file cannot be read already has `sample_id` and every metadata column. The column additions leave it unchanged. |
| NewSample.PreparedCell | code/ui/pages/new_sample.py:214-220 | Every cell of the file is kept in place by the preparation. |
| NewSample.AssignFields | code/ui/pages/new_sample.py:224-226 | On masked rows, each given field that is a column takes the new text. Every other cell is unchanged. |
| NewSample.Upsert | code/ui/pages/new_sample.py:222-229 | With a matching id, only the given fields of matching rows change and the row count is unchanged. Without one, a single row is appended: the given fields, `""` in the metadata columns, NaN elsewhere. |
| NewSample.UpsertFindsSample | code/ui/pages/new_sample.py:222-229 | After an upsert whose fields carry the id, the id is present. |
| NewSample.UpsertIdempotent | code/ui/pages/new_sample.py:222-231 | Upserting the same fields twice equals upserting them once. |
| NewSample.UpdateRow | code/ui/pages/new_sample.py:207-231 | The written table holds every metadata column, whatever columns the file held. |
| NewSample.HandleSubmit | code/ui/pages/new_sample.py:234-285 | A blank name writes nothing and keeps the mode. A failed write keeps the mode. A successful save goes back to create mode. Edit mode keeps the edited id. Create mode uses the stamp, `-` and the first six hex characters. |
| NewSample.CreateAppendsSample | code/ui/pages/new_sample.py:250-273 | Creating a sample adds one last row with the new id, the stripped name and an empty `labels_csv`. The stored rows are kept unchanged before it. |
| NewSample.CreateStoresFormFields | code/ui/pages/new_sample.py:234-265 | The new row holds the date and time as given, the stripped temperature, pressure, latitude, longitude and count, and the creation time. |
| NewSample.UpdateWritesFields | code/ui/pages/new_sample.py:222-226 | On every row with the edited id, each given metadata field holds the new text. |
| NewSample.EditClearsLabelLink | code/ui/pages/new_sample.py:257-270 | Editing a sample's metadata sets its `labels_csv` to `""`. |
| NewSample.TimeParts | code/ui/pages/new_sample.py:166-168 | Any part count other than three gives midnight. |
| NewSample.TimePartsOfFormatTime | code/ui/pages/new_sample.py:167-168 | A time written as three colon-separated numbers reads back as those hours, minutes and seconds. |
| NewSample.MissingTimeLoadsAsMidnight | code/ui/pages/new_sample.py:167-168 | A missing time (shown as `nan`) loads as midnight. |
| NewSample.FirstMatch | code/ui/pages/new_sample.py:151-156 | The result is the first row whose id text equals the sample id; none exactly when no row matches. |
| NewSample.OpenForEdit | code/ui/pages/new_sample.py:136-182 | Edit mode starts only when fields are loaded. An absent file, a failed read, a missing id column or an unknown id each give their own outcome. Loaded fields, the date included, come from the first matching row. |
| NewSample.BlankFieldLoadsAsNan | code/ui/pages/new_sample.py:173-178 | A blank stored text field is loaded into the form as `nan`. |
| SampleTypes.EnsureCsvExists | code/ui/pages/sample_types.py:112-117 | The seed is written exactly when the file does not exist. It has the five type columns and two rows. |
| SampleTypes.ToNumeric | code/ui/pages/sample_types.py:135-140 | A column with a cell that is not a number comes back unchanged. Otherwise every cell keeps its value: a column of whole numbers becomes integers, and any other column becomes floats with NaN for blanks. |
| SampleTypes.ToNumericIdempotent | code/ui/pages/sample_types.py:135-140 | Converting a converted column changes nothing. |
| SampleTypes.BlankMakesFloats | code/ui/pages/sample_types.py:135-140 | A whole number beside a blank becomes a float, which the table shows with `.0`: `20` shows as `20.0`. |
| SampleTypes.PointWholeMakesInts | code/ui/pages/sample_types.py:135-140 | A column of whole numbers written with `.0` becomes integers: `2.0` becomes 2. |
| SampleTypes.LoadCsv | code/ui/pages/sample_types.py:119-140 | The columns are exactly `ID, Type, Factor, Value, Count`, and a failed read gives no rows. `Type` and `Factor` hold the file's text or `""`. `ID`, `Value` and `Count` hold the file's column after the numeric conversion. |
| SampleTypes.RereadLoads | code/ui/pages/sample_types.py:112-140 | A table with integer `ID`, `Value` and `Count` and ordinary text elsewhere, written as CSV and read back as text, loads as itself. |
| SampleTypes.LoadSeeded | code/ui/pages/sample_types.py:112-140 | Loading the text of a freshly seeded file gives the two default rows, integers included. |
| SampleTypes.ImportCsv | code/ui/pages/sample_types.py:195-211 | A cancelled pick or a failed read leaves the current table. Otherwise the result is the file normalised to the five columns, with no numeric conversion. |
| SampleTypes.ImportKeepsText | code/ui/pages/sample_types.py:195-211 | Importing the seeded file gives a different table from loading it: the imported ids stay text. |
| SampleTypes.MaxOf | code/ui/pages/sample_types.py:174 | None exactly when no value is present. Otherwise it is one of the present values and at least every one of them. |
| SampleTypes.NextId | code/ui/pages/sample_types.py:172-176 | The new id exceeds every numeric id. It is 1 when none exists, and otherwise one more than the largest. |
| SampleTypes.NumericOfInt | code/ui/pages/sample_types.py:174 | An integer cell, and the whole float a float64 column holds for it, read as the integer under `to_numeric` and `int`. |
| SampleTypes.NextIdAfterAppend | code/ui/pages/sample_types.py:172-179 | After appending a row whose id is the old next id, the next id is one more. |
| SampleTypes.AddRow | code/ui/pages/sample_types.py:167-179 | Without a table nothing happens. Otherwise one row is appended and earlier rows are unchanged. Its ID reads as the next id, whether the column stores it as an integer or, when float64, as a float. |
| SampleTypes.AddedRowIsFresh | code/ui/pages/sample_types.py:172-179 | The new row's id is above every numeric id and its other four cells are `""`. In a float64 ID column the id is stored as a float and shows with `.0`; otherwise it is an integer. Either way it reads back as the id. |
| SampleTypes.AddRowAfterBlankShowsPoint | code/ui/pages/sample_types.py:172-179 | With ids `1` and a blank, the ID column is float64 and the added id shows as `2.0`. |
| SampleTypes.AddRowTwiceCounts | code/ui/pages/sample_types.py:172-179 | After one add, the next id is exactly one more than the id just given. |
| SampleTypes.DeleteSelected | code/ui/pages/sample_types.py:184-192 | Without a table or a selection nothing changes. Otherwise exactly the selected rows are removed. |
| CsvReports.LoadMeta | code/ui/pages/csv_reports.py:159-168 | The view has exactly the six metadata columns. A failed read gives no rows, and a parsed file keeps each cell or `""`. |
| CsvReports.Listed | code/ui/pages/csv_reports.py:178 | The listing is sorted and holds exactly the listed names ending in `.csv`. |
| CsvReports.LoadLabels | code/ui/pages/csv_reports.py:174-182 | One row per listed file: the stem as `sample_id`, the name, and the path in the directory. |
| CsvReports.LabelListingContents | code/ui/pages/csv_reports.py:178-180 | Every listed file name is a `.csv` entry of the directory, and every such entry is listed. |
| CsvReports.LabelListingOrder | code/ui/pages/csv_reports.py:178-180 | The rows are in sorted name order, and each `sample_id` is the name without `.csv`. |
| CsvReports.MetaSearch | code/ui/pages/csv_reports.py:188-199 | Without a view nothing happens. An empty query reloads the file. Otherwise exactly the rows whose id or name text contains the query are kept, in order, with every copy of a kept row. |
| CsvReports.MetaSearchIdempotent | code/ui/pages/csv_reports.py:195-197 | Repeating a metadata search changes nothing. |
| CsvReports.LabelsSearch | code/ui/pages/csv_reports.py:201-212 | As the metadata search, over `sample_id` and `file_name`; an empty query relists the directory. |
| CsvReports.LabelsSearchIdempotent | code/ui/pages/csv_reports.py:208-210 | Repeating a label search changes nothing. |
| CsvReports.DestinationKeepsName | code/ui/pages/csv_reports.py:255 | A copied file keeps its file name in the output folder. |
| CsvReports.MappingTable | code/ui/pages/csv_reports.py:260-263 | The mapping has the columns `sample_id` and `csv_path` and one row per copy: the copy's sample id and destination path, in copy order. |
| CsvReports.PickedFields | code/ui/pages/csv_reports.py:242 | The i-th picked row reads the same fields as the i-th selected row of the view. |
| CsvReports.MetaCopies | code/ui/pages/csv_reports.py:249-257 | A copy is made exactly for a picked row whose `labels_csv` is non-blank, exists and ends in `.csv` in any letter case. |
| CsvReports.MetaCopiesInOrder | code/ui/pages/csv_reports.py:249-257 | The copies are the copies of the picked rows taken in row order, one per copyable row: the i-th copy comes from an increasing row position, and every copyable row has its position. |
| CsvReports.ExportMetaSelected | code/ui/pages/csv_reports.py:223-263 | Without a view, a selection or a folder nothing is exported. The index holds the selected rows in selection order. A mapping is written exactly when something was copied. |
| CsvReports.MetaExportCopies | code/ui/pages/csv_reports.py:249-257 | A selected row with a copyable label file has that file among the copies. |
| CsvReports.LabelCopies | code/ui/pages/csv_reports.py:294-306 | A copy is made exactly for a picked row whose `csv_path` is copyable. |
| CsvReports.LabelCopiesInOrder | code/ui/pages/csv_reports.py:294-306 | The label copies follow the picked rows in order, one per copyable row. |
| CsvReports.ExportMetaBase | code/ui/pages/csv_reports.py:316-323 | The metadata to filter holds all six view columns. A parsed file keeps its rows and its own columns first. |
| CsvReports.ViewFrameUnchanged | code/ui/pages/csv_reports.py:318-323 | The empty frame used when the metadata cannot be read already has every view column, so no column is added. |
| CsvReports.MetaSubset | code/ui/pages/csv_reports.py:325-328 | A row is kept exactly when its id is a copied id or its `labels_csv` is a copied path, in the original order, with every copy of a kept row. Nothing copied gives no rows. |
| CsvReports.ExportLabelsSelected | code/ui/pages/csv_reports.py:267-331 | Without a view, a selection or a folder nothing is exported. The mapping is written exactly when something was copied. The metadata index is always written, filtered by the copied ids and paths. |
| CsvReports.NothingCopiedEmptyIndex | code/ui/pages/csv_reports.py:309-331 | When nothing is copyable, no mapping is written and the index is written with no rows. |
| CsvReports.CopiedSampleMetadataExported | code/ui/pages/csv_reports.py:304-328 | A metadata row linked to a copied label file is in the exported index. |
| CsvReports.LabelCopyRecorded | code/ui/pages/csv_reports.py:300-306 | A selected copyable label file is among the copied paths, and its id, when not empty, among the copied ids. |
| EditHub.Reload | code/ui/pages/edit_hub.py:107-118 | The table has exactly the six view columns, and a failed read gives no rows. A parsed file keeps each cell, or `""` where its column is missing. |
| EditHub.ApplyFilter | code/ui/pages/edit_hub.py:120-128 | An empty query shows every row. Otherwise a row is shown exactly when its id or name contains the query, and a missing value never matches. |
| EditHub.HitsFrom | code/ui/pages/edit_hub.py:125-128 | The shown labels are increasing, and a label is shown exactly when its row matches. |
| EditHub.UnfilteredFrameIsFull | code/ui/pages/edit_hub.py:122-123 | With an empty query the view is the whole table. |
| EditHub.FilteredFrameIsSearch | code/ui/pages/edit_hub.py:124-128 | With a query the view is the same two-column search used elsewhere, over text cells only. |
| EditHub.RowOf | code/ui/pages/edit_hub.py:139-141 | By position the selected row is the shown row. By label it is the row with that label, and the lookup fails exactly when that label is filtered out. |
| EditHub.SelectedSampleId | code/ui/pages/edit_hub.py:134-141 | No selection gives no id. A failed lookup is an error. Otherwise the id is the text of the looked-up row. |
| EditHub.Emitted | code/ui/pages/edit_hub.py:143-157 | A signal is emitted exactly when an id was chosen and it is not empty. |
| EditHub.SelectedIsShownRow | code/ui/pages/edit_hub.py:139-141 | With positional lookup the id is that of the row the user sees at the selected position. |
| EditHub.EmittedIdIsDisplayed | code/ui/pages/edit_hub.py:139-146 | With positional lookup the emitted id equals the text the table displays in that row's `sample_id` cell. |
| EditHub.LookupsAgreeIffUnshifted | code/ui/pages/edit_hub.py:125-141 | Label and position lookups agree on every shown row exactly when the view shows labels 0, 1, 2, … in order. |
| EditHub.UnfilteredLookupsAgree | code/ui/pages/edit_hub.py:107-123 | After a reload with an empty query, both lookups pick the same row. |
| EditHub.LabelLookupMisreads | code/ui/pages/edit_hub.py:124-141 | A concrete table where the label lookup hands over the wrong id, or fails, after a search. |
| EditHub.SelectedIds | code/ui/pages/edit_hub.py:163-165 | None when any selected row fails to look up. Otherwise exactly the id texts of the looked-up rows. |
| EditHub.SelectedPaths | code/ui/pages/edit_hub.py:176-183 | Exactly the `labels_csv` texts of the selected rows that are non-blank after stripping. |
| EditHub.DropSamples | code/ui/pages/edit_hub.py:190 | A row survives exactly when its id text is not among the ids, in the original order. |
| EditHub.DropKeepsCopies | code/ui/pages/edit_hub.py:190 | Every copy of a surviving row is kept, and no copy of a dropped one. |
| EditHub.DeleteSelected | code/ui/pages/edit_hub.py:159-192 | No selection, a declined question or a failed lookup changes nothing. Otherwise the selected non-blank paths are unlinked. The metadata is rewritten without the selected ids, but only when it can be read. |
| EditHub.DeleteOne | code/ui/pages/edit_hub.py:163-190 | Deleting one row whose lookup succeeds drops exactly that row's id from the metadata. |
| EditHub.DeleteRemovesExactlySelected | code/ui/pages/edit_hub.py:186-191 | With positional lookup, deleting a row drops exactly the rows sharing that row's id. |
| EditHub.DeleteThenReload | code/ui/pages/edit_hub.py:186-192 | Reloading the rewritten metadata keeps its row count and shows none of the deleted ids. |
| EditHub.LabelDeleteMisses | code/ui/pages/edit_hub.py:163-191 | A concrete table where the label lookup deletes the wrong sample after a search, while the positional lookup deletes the selected one. |
| LabelsPicker.Listed | code/ui/pages/labels_picker.py:83-84 | Exactly the entries named `{sample_id}__*.csv`, sorted by name. |
| LabelsPicker.Scan | code/ui/pages/labels_picker.py:80-96 | The table always has exactly the four picker columns. A missing folder gives no rows; otherwise there is one row per listed entry. |
| LabelsPicker.ScanRowsMatch | code/ui/pages/labels_picker.py:83-92 | Every scanned row names a matching file of the folder. |
| LabelsPicker.ScanHasEveryMatch | code/ui/pages/labels_picker.py:83-92 | Every matching file of the folder has a row. |
| LabelsPicker.ScanIsSorted | code/ui/pages/labels_picker.py:84 | The rows are in sorted name order. |
| LabelsPicker.StatFailureLeavesBlanks | code/ui/pages/labels_picker.py:93-94 | A file whose stat fails has `""` as its size and modified time. |
| LabelsPicker.ApplyFilter | code/ui/pages/labels_picker.py:108-116 | Without a scan nothing changes. An empty query shows the full scan. Otherwise exactly the rows whose name or path text contains the query are kept, in order, with every copy of a kept row. |
| LabelsPicker.FilterIdempotent | code/ui/pages/labels_picker.py:115-116 | Filtering the filtered table again changes nothing. |
| LabelsPicker.OpenSelected | code/ui/pages/labels_picker.py:118-129 | Something is opened exactly when the table has rows and a row is selected. It is the displayed `csv_path` of the first selected row, with the sample id. |
| LabelsPicker.OpenedRowIsListed | code/ui/pages/labels_picker.py:118-129 | A shown row that came from the scan opens, with the sample id, the path of a matching scanned file. |
| LabelsPicker.OpenedFileIsListed | code/ui/pages/labels_picker.py:84-129 | The opened path is one of the scanned label files of that sample. |

## Left out

- Qt widgets, layouts, signals, shortcuts, headers, item flags and page routing. A dialog's result, a question's answer and the selection become parameters.
- File-system and CSV I/O. A read is absent, unreadable or parsed. A listing is a sequence of names. `mkdir`, `copy2`, `unlink` and `stat` are not performed: the model returns what would be written, copied or unlinked. Unlinking failures are ignored by the source; the model returns the set of paths.
- Audio decoding, waveform and spectrogram drawing, and the media player (label_editor.py:335-403).
- The float rounding of `start_s`/`end_s` when labels are saved (label_editor.py:514-529), and the `Int64` coercion in the sample-types save (sample_types.py:146-165). Both rest on pandas dtype rules. The sample-types export dialog only writes the table and is left out too.
- `int(float(v))` in the cell edit is a parameter `toInt` of `SetData`. Its behaviour on underscores, exponents and infinities is not modelled.
- TableModel.SetData: a column's dtype is read off its cells. A float64 column whose every cell is NaN looks the same as a text column of NaNs. An integer typed there is stored as an integer and shows without `.0`.
- TableModel.InsertEmptyRow: only the float64 case of pandas' dtype rule is modelled. An all-NaN float64 column takes an integer default as an integer, as for `SetData`. An int64 column that the default row leaves out would turn float64 in pandas, so its earlier integers would show with `.0`. The model keeps them as integers. Neither caller does this: "Add row" supplies all five columns and the label editor's columns are read as text.
- `pd.to_numeric` is modelled on exact decimals: white space, an optional sign, digits and at most one point. Exponents, `inf`, hexadecimal and underscores are not read. The int64 and float64 limits and float rounding are not modelled. A float is an exact decimal, and its text is the shortest point form, never exponent notation. Signed zero is not distinguished.
- `downcast="integer"` is modelled as choosing integers exactly when every cell is a whole number. The choice of the smallest integer width is not modelled.
- The time stamp, the uuid and `created_at` are inputs.
- LabelsPicker.Scan: `glob(f"{sample_id}__*.csv")` is modelled as a prefix and suffix match. That is exact only when the sample id holds no pattern characters (`*`, `?`, `[`). An id with them would match other names in the source.
- `str.contains` is modelled as plain substring search. Queries containing regular-expression metacharacters are outside the model.
- `str.lower` is modelled on ASCII letters only.
- LabelEditor.ClickSeek: the click position is a real number and the result is its truncation to whole milliseconds. The source's float product `x * 1000` is not modelled bit for bit.
- LabelEditor.SliderValue: the source's own formula, `int(minimum + x / max(1, width) * (maximum - minimum))`, is computed exactly on integers and truncated toward zero. Only the float rounding of the division and the product is not modelled.
- The position readout is modelled in whole milliseconds, as `ms/1000` with three decimals. Sub-millisecond float effects are not modelled.
- Path normalisation by `str(Path(p))` is not modelled: a path is joined as `dir/name`.
- The date widget's validity check (`QDate`) is not modelled. The stored date text is carried as is.
- Edit-hub exceptions raised inside slots are modelled as nothing emitted or nothing written.
- The label editor's `open_for`, and `open_existing` (called by `main.py` but defined nowhere), are not modelled.
- The class list is read without `dtype=str`, so a numeric type cell is an `Int` and is rendered by `str`. The model keeps that distinction.
- The selection is a sequence of positions. The source's single-selection mode is not assumed.

## Findings

| source | as written | input that shows it | evidently intended | confidence | as-written member | corrected member |
|---|---|---|---|---|---|---|
| code/ui/pages/edit_hub.py:141 | `df_view.loc[r, "sample_id"]` reads the index label `r`. The filtered view keeps the loaded labels, so label and position differ after a search. | Three rows with ids NaN, `x`, `xy`, searched for `x`. Selecting the second shown row hands over `x` instead of `xy`. Selecting the first raises `KeyError`. | Positional lookup (`iloc`): the id of the row the user selected. | not executed | EditHub.LabelLookupMisreads | EditHub.SelectedIsShownRow |
| code/ui/pages/edit_hub.py:165 | The delete collects ids with the same label lookup. | The same table and search. Deleting the second shown row (`xy`) removes the `x` row and keeps `xy`. | Delete the rows the user selected. | not executed | EditHub.LabelDeleteMisses | EditHub.DeleteRemovesExactlySelected |
