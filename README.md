# Data Sweaper, modelled in Dafny

Data Sweaper is a one-page Streamlit script (`app.py`). It takes uploaded CSV
or Excel files and reads them into a pandas DataFrame. It can drop duplicate
rows and fill missing numeric cells with their column's mean. It keeps the
columns the user selects, and offers the result for download as CSV or Excel.

This project models that script as a table-cleaning pipeline over an abstract
table:
- a table is a sequence of columns (name, numeric or not);
- plus rows of cells, where a cell is `Missing`, a number (`real`) or other text.

Modules:

- `Outcomes`: `Option` and `Result`.
- `FileNames`: covers file names.
  - the extension test (POSIX `os.path.splitext`, then `lower()`);
  - the choice of reader;
  - Python's `str.replace`.
- `Tables`: the table, and the invariant the readers guarantee. That invariant is distinct column names and rectangular rows, with no text in a numeric column.
- `Cleaning`: `drop_duplicates` and the numeric mean fill, as functions on values.
- `Projection`: `df[columns]`, including its `KeyError`.
- `Export`: the conversion.
  - the output name and MIME type;
  - the `BytesIO` buffer, as a class that is written and then rewound.
- `Frames`: the DataFrame `df` as a class. Its cleaning methods update it in place.
- `Pipeline`: one run of the script.
  - `ReadUploads` is the upload loop, a method with a loop invariant.
  - `Run` is the whole run.
  - Both are proved equal to the specification functions `ScanAll` and `RunSpec`.
  - Lemmas state what those functions mean.

The loop follows the code as written: `continue` ends every iteration, and the
report is produced once, after the loop. The consequences are these:
- `df` holds the table of the last file whose extension is supported. A later unsupported file only adds an error message.
- The name, size and extension used for the report and the download are those of the last file uploaded, supported or not. So `a.csv` followed by `b.txt` exports the table of `a.csv` as `b.csv`.
- If no file is supported, `df` is never assigned. The run then stops with a `NameError`.
- A reader that raises stops the run at that file. A writer that raises stops it when Convert is pressed.

A shorter reading of the script says "the last uploaded file is the one
processed". The model follows the code instead.

## Model

| member | source | states |
|---|---|---|
| FileNames.Lower | app.py:18 | `lower()` keeps the length, and keeps every '.' and '/' in place |
| FileNames.LowerIdempotent | app.py:18 | lower-casing twice equals lower-casing once |
| FileNames.RFind | app.py:18 | the index of the last occurrence of a character, or -1 when there is none |
| FileNames.SplitExt | app.py:18 | `splitext` cuts the name into two parts that concatenate back to it; the suffix is empty or is a '.' followed by neither '.' nor '/' |
| FileNames.SplitExtAt | app.py:18 | `stem + e` splits as `(stem, e)` exactly when the last path component of `stem` is not all dots |
| FileNames.SplitExtLower | app.py:18 | splitting the lower-cased name gives the lower-cased parts |
| FileNames.Extension | app.py:18 | the lower-cased extension is empty or a well-formed extension, and no longer than the name |
| FileNames.SplitExtSwap | app.py:18 | if `stem + e` splits at `e`, then `stem + e'` splits at `e'` for every well-formed `e'` |
| FileNames.Detect | app.py:18-24 | ".csv" selects the CSV reader and ".xlsx" the Excel reader (both directions); every other extension, the empty one included, is an error carrying that extension |
| FileNames.DetectIgnoresCase | app.py:18-24 | names that differ only in letter case have the same extension and the same reader |
| FileNames.DetectUpperCase | app.py:18-20 | "Report.CSV" is read as CSV |
| FileNames.DetectLastSuffix | app.py:18-24 | "data.csv.txt" is rejected as ".txt" |
| FileNames.DetectDotFile | app.py:18-24 | ".csv" has no extension and is rejected with "" |
| FileNames.BareExtension | app.py:18 | a name that is only a well-formed extension, such as ".csv", splits with an empty extension |
| FileNames.DetectNoExtension | app.py:18-24 | "notes" is rejected with "" |
| FileNames.InsertEverywhere | app.py:68 | with an empty pattern the result has length len(s) + (len(s)+1)·len(rep) |
| FileNames.InsertEverywhereEnds | app.py:68 | with an empty pattern the result starts and ends with the replacement |
| FileNames.InsertEverywhereSnoc | app.py:68 | each character appended to the name is followed by one more copy of the replacement, so the replacement stands before every character and once more at the end |
| FileNames.ReplaceAll | app.py:68 | replacing a non-empty pattern by itself changes nothing |
| FileNames.ReplaceAllFirst | app.py:68-73 | the leftmost occurrence becomes the replacement and the scan resumes after it; with `ReplaceAllAbsent` this fixes the result for every non-empty pattern |
| FileNames.ReplaceAllAbsent | app.py:68 | a name with no exact-case occurrence of the pattern is returned unchanged |
| FileNames.ReplaceSoleSuffix | app.py:68 | when the only occurrence closes the name, `x + pat` becomes `x + rep` |
| FileNames.ReplaceEveryOccurrence | app.py:73 | every occurrence is replaced: "a.csv.csv" becomes "a.xlsx.xlsx" |
| FileNames.ReplaceIsCaseSensitive | app.py:73 | ".csv" does not match "Report.CSV", so the name stays unchanged |
| FileNames.ReplaceEmptyPattern | app.py:68 | an empty pattern is inserted around every character |
| Cleaning.Dedup | app.py:42 | the result is no longer than the input, has the same members, and holds no element twice |
| Cleaning.DedupOfDistinct | app.py:42 | a sequence without repeats is returned unchanged |
| Cleaning.DedupIdempotent | app.py:42 | deduplicating twice equals deduplicating once |
| Cleaning.FirstIndex | app.py:42 | the index of the first occurrence: it holds the element, and nothing before it does |
| Cleaning.DedupKeepsFirstOccurrenceOrder | app.py:42 | the kept rows appear in the order of their first occurrences |
| Cleaning.DropDuplicates | app.py:42 | columns unchanged; no more rows than before; the same set of distinct rows; no row twice; the table invariant is kept |
| Cleaning.DropDuplicatesIdempotent | app.py:42 | dropping duplicates twice equals dropping them once |
| Cleaning.Mean | app.py:48 | a column's mean is defined exactly when it holds a number, and then times the count of numbers it gives their sum |
| Cleaning.ColumnMean | app.py:47-48 | a column takes part in the fill exactly when it is numeric and holds a number, with that column's mean |
| Cleaning.FillMissingMeans | app.py:47-48 | the invariant, columns and row count are kept; non-missing cells and non-numeric columns are unchanged; a missing numeric cell becomes the mean of its column's numbers; a numeric column without numbers is unchanged |
| Cleaning.FillMissingMeansKeepsMeans | app.py:47-48 | every column's mean after the fill equals its mean before |
| Cleaning.FillMissingMeansCompletes | app.py:47-48 | a numeric column holding at least one number has no missing cell after the fill |
| Cleaning.FillMissingMeansIdempotent | app.py:47-48 | a second fill changes nothing |
| Cleaning.NumbersOfFilled | app.py:48 | filling `k` missing cells with `m` adds `k` numbers and `k·m` to the sum |
| Cleaning.PaddedAverage | app.py:48 | adding copies of the average keeps the average |
| Cleaning.AverageWithin | app.py:48 | the fill value lies between the column's smallest and largest number |
| Projection.IndexOf | app.py:54 | the first column with the name, or -1 exactly when no column has it |
| Projection.Unknown | app.py:54 | exactly the requested names that are not columns, at most one entry per requested name |
| Projection.UnknownAppend | app.py:54 | the unknown names are listed in request order: those of `a + b` are those of `a` followed by those of `b` |
| Projection.Select | app.py:53-54 | `KeyError` exactly when some requested name is unknown, listing those names; otherwise exactly the requested columns in the requested order, every row kept in place, each cell taken from its source column |
| Projection.SelectAllColumns | app.py:53-54 | the default selection (every column, in order) returns the table unchanged |
| Export.TargetExtension | app.py:68-73 | ".csv" and ".xlsx" are well-formed, lower-case extensions |
| Export.Mime | app.py:69-74 | "text/csv" exactly for CSV; the spreadsheet MIME type exactly for Excel |
| Export.OutputName | app.py:68-73 | the name is unchanged when it holds no exact-case occurrence of the extension, or when it already carries the target extension |
| Export.OutputNameFirst | app.py:68-73 | the first occurrence of the upload extension becomes the target extension, and the rest of the name after it is converted the same way |
| Export.ConvertedNameRoundTrip | app.py:68-73 | for an ordinary lower-case name, the new name is the stem plus the target extension, and uploading it again selects the target's reader |
| Export.UpperCaseNameUnchanged | app.py:73 | "Report.CSV" keeps its name when converted to Excel |
| Export.EveryOccurrenceReplaced | app.py:73 | "a.csv.csv" becomes "a.xlsx.xlsx" when converted to Excel |
| Export.Planned | app.py:65-74 | no download exactly when the writer raises; otherwise the output name, the MIME type and the writer's bytes |
| Export.Buffer.constructor | app.py:65 | `BytesIO()` starts empty at position 0 |
| Export.Overwrite | app.py:67 | a write at position `p` keeps the bytes before `p`, puts the data at `p`, and keeps whatever follows |
| Export.Buffer.Write | app.py:67-72 | the buffer contents become the overwrite at the old position, and the position advances by the data length |
| Export.Buffer.Rewind | app.py:75 | `seek(0)`: the contents are kept and the position is 0 |
| Export.Convert | app.py:65-75 | nothing is offered exactly when the writer raises; otherwise the download carries the planned name and MIME type, and exactly the serialised table with no index column, because the buffer is rewound |
| Frames.Frame.constructor | app.py:20-22 | the frame holds the table that was read |
| Frames.Frame.DropDuplicates | app.py:42 | after the in-place update the frame holds `DropDuplicates` of its old table, and the invariant is kept |
| Frames.Frame.FillMissing | app.py:47-48 | after the in-place update the frame holds `FillMissingMeans` of its old table, and the invariant is kept |
| Pipeline.Step | app.py:18-25 | one turn: after a reader error nothing changes; messages are only appended, one at most; a supported file adds none; an unsupported file keeps the table; a new error is a supported file whose reader raised |
| Pipeline.ScanAll | app.py:17-25 | with well-formed readers, the table the loop ends with satisfies the table invariant |
| Pipeline.LastSupported | app.py:17-22 | the last file with a supported extension: it is supported, and no later file is |
| Pipeline.FirstFailure | app.py:20-22 | the first supported file whose reader raises: it fails, and no earlier file does |
| Pipeline.UnsupportedPositions | app.py:23-24 | the positions of the unsupported files, all of them, in increasing order |
| Pipeline.UnsupportedExtensions | app.py:23-24 | no more messages than files, and none exactly when every file is supported |
| Pipeline.UnsupportedExtensionsPositions | app.py:17-24 | one message per unsupported file, in upload order: the k-th message is the extension of the k-th unsupported file |
| Pipeline.EveryFileUnsupported | app.py:17-24 | when no file is supported, message j is the extension of file j, for every file |
| Pipeline.ScanAllCharacterised | app.py:17-25 | without a failing reader, the loop ends with the last supported file's table and one message per unsupported file; otherwise it stops at the first failing file, with the messages shown before it |
| Pipeline.FailureSticks | app.py:17-25 | after a reader has raised, later files change nothing |
| Pipeline.ReadUploads | app.py:17-25 | the loop's result equals `ScanAll` over the uploads |
| Pipeline.EarlierTablesDiscarded | app.py:17-22 | a later supported file replaces the table of every earlier one |
| Pipeline.Kilobytes | app.py:29 | the size in kilobytes times 1024 is the size in bytes |
| Pipeline.Head | app.py:33 | the preview is the first five rows, or every row when there are fewer |
| Pipeline.Clean | app.py:37-49 | cleaning keeps the invariant and the columns and never adds rows; with the checkbox unticked the table is unchanged |
| Pipeline.NumericPositions | app.py:59 | the numeric columns, in increasing order, all of them |
| Pipeline.ChartPositions | app.py:59 | at most two numeric columns, in order, with no numeric column skipped before the last one kept |
| Pipeline.ChartColumns | app.py:59 | the names of the first two numeric columns, or of all of them when there are fewer |
| Pipeline.CleanFrame | app.py:37-49 | the frame ends holding `Clean` of its old table |
| Pipeline.ConvertButton | app.py:64-75 | when Convert is pressed, the download named from the last file's name and extension, or the writer's exception; nothing otherwise |
| Pipeline.Conclude | app.py:56-83 | the report shows the selected table, the chart columns and the download, or the run ends with the writer's exception, as `Finish` states |
| Pipeline.ShowTable | app.py:27-83 | what is shown after the loop equals `Present` of the table the loop produced |
| Pipeline.Run | app.py:16-83 | a whole run equals `RunSpec` |
| Pipeline.NoReadableFileCrashes | app.py:17-33 | uploads with no supported file show one error per file, each carrying that file's extension, and then fail with the `NameError` |
| Pipeline.WriteErrorStopsRun | app.py:64-72 | when Convert is pressed, the run ends with the writer's exception exactly when the writer raises |
| Pipeline.ReadErrorStopsRun | app.py:17-22 | a raising reader ends the run at the first failing file |
| Pipeline.DefaultSelectionKeepsTable | app.py:53-54 | with the default selection, the cleaned table is shown and exported whole |
| Pipeline.DefaultRunReport | app.py:17-75 | with the default selection: the last file's name and size; the last supported file's table, previewed and then cleaned; exported under the last file's name |
| Pipeline.ScanCsvThenText | app.py:17-25 | the loop over "a.csv" then "b.txt" keeps the CSV table and reports ".txt" |
| Pipeline.TextNameToCsv | app.py:68 | "b.txt" converted to CSV is named "b.csv" |
| Pipeline.TrailingUnsupportedFile | app.py:17-83 | the table of "a.csv" is exported under the name "b.csv", derived from the trailing "b.txt" |

## Left out

- Streamlit page layout, titles, the success messages and the rendering of what is shown are not modelled. They are user-interface output. What the page shows is kept as values in `Report`: the messages, the file name, the size in kilobytes, the preview, the table, the chart columns and the download. The widgets' answers are parameters of a run (`Choices`).
- Streamlit reruns the whole script on every button press, so a cleaning button and the Convert button are never pressed in the same run. The model treats one run as having all answers at once, and applies the cleaning buttons in the order they appear. State carried between reruns is not modelled.
- The uploader's `type=['csv', 'xlsx']` filter is not modelled. Every name reaches the extension test.
- Parsing and serialising are abstract functions. `pd.read_csv` and `pd.read_excel` are `Reader`, returning None when they raise. `to_csv` and `to_excel` are `Writer`, returning None when they raise, which ends the run with `WriteError`. The readers are assumed to build tables with the `Tables.Valid` invariant, and dtype inference is not modelled.
- Cleaning.FillMissingMeans: means are exact reals, not float64. Rounding, NaN arithmetic and infinities are not modelled. Likewise `Pipeline.Kilobytes` uses exact division.
- Cells are `Missing`, a number, or text. Booleans, dates and mixed-type numeric columns are not distinguished, and the `select_dtypes` kind of a column is fixed when the table is read.
- FileNames.Lower folds ASCII letters only. Python's full Unicode lower-casing is not modelled.
- FileNames.SplitExt follows POSIX paths, with '/' as the only separator. Windows separators are not modelled.
- Export.Buffer: only the writes and the `seek(0)` the script performs are modelled. Seeking past the end, reading and truncation are left out.
- The bar chart is reduced to the columns it shows (`ChartColumns`). Drawing it is left out.
- A run that fails after the page has started showing the report (the `NameError` of line 33, after lines 28-29 have shown the last file's name and size; the `KeyError` of line 54; a writer exception at lines 67 or 72) is modelled as `Crashed`. The parts already shown before the exception are not kept in the outcome.
