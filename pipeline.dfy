/** One run of the app.py script (lines 16-75): the loop over the uploaded
    files, then the report about the table the loop leaves behind, its
    cleaning, the column selection, the chart columns and the conversion.

    The loop's `continue` (line 25) sits after the if/elif/else, so the
    report is not written per file: it is written once, after the loop,
    for the table of the LAST SUPPORTED file that was read, while the
    name, size and extension it shows are those of the LAST file uploaded.
    An unsupported file only adds an error message; when no file is
    supported, `df` was never assigned and the run stops with a
    `NameError`; a reader that raises stops the run at that file. */
module Pipeline {
  import opened Outcomes
  import opened FileNames
  import opened Tables
  import opened Projection
  import opened Export
  import Cleaning
  import Frames

  /** An uploaded file: its name, its size in bytes and its contents. */
  datatype Upload = Upload(name: string, size: nat, payload: seq<bv8>)

  /** `pd.read_csv` and `pd.read_excel`, which lie outside the model: the
      table they build, or None when they raise. */
  type Reader = (Format, seq<bv8>) -> Option<Table>

  /** The extension test that picks a reader for a file name: `Detect` in
      the script. The loop depends on a name only through it. */
  type Classifier = string -> Result<Format, string>

  /** The readers build tables with distinct column names and rectangular,
      type-consistent rows. */
  ghost predicate ReadsValid(read: Reader) {
    forall f, b :: read(f, b).Some? ==> Valid(read(f, b).value)
  }

  /** The state of the upload loop: the current `df` (None while it is
      unassigned) and the error messages shown so far, or the file whose
      reader raised, which ends the run. */
  datatype Scan =
    | Scanning(table: Option<Table>, unsupported: seq<string>)
    | ReadFailed(name: string, unsupported: seq<string>)

  /** One turn of the loop (lines 18-25). */
  function Step(s: Scan, f: Upload, classify: Classifier, read: Reader): (r: Scan)
    ensures s.ReadFailed? ==> r == s
    ensures s.unsupported <= r.unsupported && |r.unsupported| <= |s.unsupported| + 1
    ensures Supported(f, classify) ==> r.unsupported == s.unsupported
    ensures r.Scanning? && !Supported(f, classify) ==> r.table == s.table
    ensures r.ReadFailed? && s.Scanning? ==> Fails(f, classify, read) && r.name == f.name
  {
    match s
    case ReadFailed(_, _) => s
    case Scanning(df, errors) =>
      match classify(f.name)
      case Ok(format) =>
        (match read(format, f.payload)
         case Some(t) => Scanning(Some(t), errors)
         case None => ReadFailed(f.name, errors))
      case Err(ext) => Scanning(df, errors + [ext])
  }

  /** The loop over all files, in upload order. */
  function ScanAll(files: seq<Upload>, classify: Classifier, read: Reader): (s: Scan)
    ensures ReadsValid(read) && s.Scanning? && s.table.Some? ==> Valid(s.table.value)
    decreases |files|
  {
    if files == [] then Scanning(None, [])
    else Step(ScanAll(files[..|files| - 1], classify, read), files[|files| - 1], classify, read)
  }

  predicate Supported(f: Upload, classify: Classifier) {
    classify(f.name).Ok?
  }

  /** A supported file whose reader raises. */
  predicate Fails(f: Upload, classify: Classifier, read: Reader) {
    Supported(f, classify) && read(classify(f.name).value, f.payload).None?
  }

  /** The position of the last supported file, or -1 if there is none. */
  function LastSupported(files: seq<Upload>, classify: Classifier): (k: int)
    ensures -1 <= k < |files|
    ensures k >= 0 ==> Supported(files[k], classify)
    ensures forall j :: k < j < |files| ==> !Supported(files[j], classify)
    decreases |files|
  {
    if files == [] then -1
    else if Supported(files[|files| - 1], classify) then |files| - 1
    else LastSupported(files[..|files| - 1], classify)
  }

  /** The position of the first file whose reader raises, or -1. */
  function FirstFailure(files: seq<Upload>, classify: Classifier, read: Reader): (k: int)
    ensures -1 <= k < |files|
    ensures k >= 0 ==> Fails(files[k], classify, read)
    ensures forall j :: 0 <= j < |files| && (k == -1 || j < k) ==> !Fails(files[j], classify, read)
    decreases |files|
  {
    if files == [] then -1
    else
      var k := FirstFailure(files[..|files| - 1], classify, read);
      if k >= 0 then k
      else if Fails(files[|files| - 1], classify, read) then |files| - 1
      else -1
  }

  /** The positions of the unsupported files, in upload order. */
  function UnsupportedPositions(files: seq<Upload>, classify: Classifier): (p: seq<nat>)
    ensures forall k :: 0 <= k < |p| ==> p[k] < |files| && !Supported(files[p[k]], classify)
    ensures forall k, l :: 0 <= k < l < |p| ==> p[k] < p[l]
    ensures forall j :: 0 <= j < |files| && !Supported(files[j], classify) ==> j in p
    decreases |files|
  {
    if files == [] then []
    else
      var n := |files| - 1;
      var init := files[..n];
      assert forall j :: 0 <= j < n ==> init[j] == files[j];
      UnsupportedPositions(init, classify) + (if Supported(files[n], classify) then [] else [n])
  }

  /** The extensions of the unsupported files, in upload order: the error
      messages of line 24. */
  function UnsupportedExtensions(files: seq<Upload>, classify: Classifier): (r: seq<string>)
    ensures |r| <= |files|
    ensures r == [] <==> forall j :: 0 <= j < |files| ==> Supported(files[j], classify)
    decreases |files|
  {
    if files == [] then []
    else
      var init := files[..|files| - 1];
      var last := files[|files| - 1];
      var r := UnsupportedExtensions(init, classify) +
        (if Supported(last, classify) then [] else [classify(last.name).error]);
      assert forall j :: 0 <= j < |init| ==> init[j] == files[j];
      r
  }

  /** One message per unsupported file, in upload order: the `k`-th message
      is the extension of the `k`-th unsupported file. */
  lemma {:induction false} UnsupportedExtensionsPositions(files: seq<Upload>, classify: Classifier)
    ensures |UnsupportedExtensions(files, classify)| == |UnsupportedPositions(files, classify)| <= |files|
    ensures forall k :: 0 <= k < |UnsupportedExtensions(files, classify)| ==>
      UnsupportedExtensions(files, classify)[k] ==
        classify(files[UnsupportedPositions(files, classify)[k]].name).error
    decreases |files|
  {
    PositionsBound(files, classify);
    if files != [] {
      var n := |files| - 1;
      var init := files[..n];
      UnsupportedExtensionsPositions(init, classify);
      LastStep(files, classify);
      var r, p := UnsupportedExtensions(init, classify), UnsupportedPositions(init, classify);
      var r', p' := UnsupportedExtensions(files, classify), UnsupportedPositions(files, classify);
      forall k | 0 <= k < |r'| ensures r'[k] == classify(files[p'[k]].name).error {
        if k < |r| {
          assert r'[k] == r[k] && p'[k] == p[k];
          assert init[p[k]] == files[p[k]];
        } else {
          assert !Supported(files[n], classify);
          assert r'[k] == classify(files[n].name).error && p'[k] == n;
        }
      }
    }
  }

  /** The last file adds its message and its position, or neither. */
  lemma LastStep(files: seq<Upload>, classify: Classifier)
    requires files != []
    ensures var n := |files| - 1;
      UnsupportedExtensions(files, classify) == UnsupportedExtensions(files[..n], classify) +
        (if Supported(files[n], classify) then [] else [classify(files[n].name).error])
    ensures var n := |files| - 1;
      UnsupportedPositions(files, classify) == UnsupportedPositions(files[..n], classify) +
        (if Supported(files[n], classify) then [] else [n])
  {
  }

  /** No more positions than files: they are increasing and in range. */
  lemma PositionsBound(files: seq<Upload>, classify: Classifier)
    ensures |UnsupportedPositions(files, classify)| <= |files|
  {
    var p := UnsupportedPositions(files, classify);
    IncreasingBound(p, |files|);
  }

  lemma {:induction false} IncreasingBound(p: seq<nat>, n: nat)
    requires forall k :: 0 <= k < |p| ==> p[k] < n
    requires forall k, l :: 0 <= k < l < |p| ==> p[k] < p[l]
    ensures |p| <= n
    decreases n
  {
    if p != [] {
      var q := p[..|p| - 1];
      assert forall k :: 0 <= k < |q| ==> q[k] < p[|p| - 1];
      IncreasingBound(q, p[|p| - 1]);
    }
  }

  /** When no file is supported, every file shows its own message. */
  lemma {:induction false} EveryFileUnsupported(files: seq<Upload>, classify: Classifier)
    requires forall j :: 0 <= j < |files| ==> !Supported(files[j], classify)
    ensures |UnsupportedExtensions(files, classify)| == |files|
    ensures forall j :: 0 <= j < |files| ==>
      UnsupportedExtensions(files, classify)[j] == classify(files[j].name).error
    decreases |files|
  {
    if files != [] {
      var init := files[..|files| - 1];
      assert forall j :: 0 <= j < |init| ==> init[j] == files[j];
      EveryFileUnsupported(init, classify);
    }
  }

  /** What the last supported file's reader gives. */
  function LastTable(files: seq<Upload>, classify: Classifier, read: Reader): Option<Table> {
    var k := LastSupported(files, classify);
    if k < 0 then None else read(classify(files[k].name).value, files[k].payload)
  }

  /** The whole effect of the loop: without a failing reader, the table of
      the last supported file and one message per unsupported file; with
      one, the first failing file and the messages shown before it. */
  lemma {:induction false} ScanAllCharacterised(files: seq<Upload>, classify: Classifier, read: Reader)
    ensures FirstFailure(files, classify, read) == -1 ==>
      ScanAll(files, classify, read) ==
        Scanning(LastTable(files, classify, read), UnsupportedExtensions(files, classify))
    ensures FirstFailure(files, classify, read) >= 0 ==>
      ScanAll(files, classify, read) ==
        ReadFailed(files[FirstFailure(files, classify, read)].name,
                   UnsupportedExtensions(files[..FirstFailure(files, classify, read)], classify))
    decreases |files|
  {
    if files != [] {
      var n := |files| - 1;
      var init := files[..n];
      ScanAllCharacterised(init, classify, read);
      var k := FirstFailure(init, classify, read);
      if k >= 0 {
        assert init[..k] == files[..k];
      } else if Fails(files[n], classify, read) {
        assert files[..n] == init;
      }
    }
  }

  /** Once a reader has raised, later files change nothing. */
  lemma {:induction false} FailureSticks(files: seq<Upload>, k: nat, classify: Classifier, read: Reader)
    requires k <= |files| && ScanAll(files[..k], classify, read).ReadFailed?
    ensures ScanAll(files, classify, read) == ScanAll(files[..k], classify, read)
    decreases |files|
  {
    if k < |files| {
      var init := files[..|files| - 1];
      assert init[..k] == files[..k];
      FailureSticks(init, k, classify, read);
    } else {
      assert files[..k] == files;
    }
  }

  /** The loop of lines 17-25, reading the files in upload order. */
  method ReadUploads(files: seq<Upload>, read: Reader) returns (s: Scan)
    ensures s == ScanAll(files, Detect, read)
  {
    var df: Option<Table> := None;
    var errors: seq<string> := [];
    var i := 0;
    while i < |files|
      invariant 0 <= i <= |files|
      invariant ScanAll(files[..i], Detect, read) == Scanning(df, errors)
    {
      var file := files[i];
      assert files[..i + 1][..i] == files[..i];
      var fileExt := Extension(file.name);
      if fileExt == ".csv" || fileExt == ".xlsx" {
        var table := read(if fileExt == ".csv" then Csv else Xlsx, file.payload);
        if table.None? {
          s := ReadFailed(file.name, errors);
          FailureSticks(files, i + 1, Detect, read);
          return;
        }
        df := table;
      } else {
        errors := errors + [fileExt];
      }
      i := i + 1;
    }
    assert files[..i] == files;
    s := Scanning(df, errors);
  }

  /** The widgets' answers in one run: the cleaning checkbox and its two
      buttons, the multiselect (None while it shows its default, every
      column), the chart checkbox, the radio button and the Convert
      button. */
  datatype Choices = Choices(
    cleaning: bool, removeDuplicates: bool, fillMissing: bool,
    selection: Option<seq<string>>, showChart: bool, target: Target, convert: bool)

  datatype Failure =
    | NoReadableFile | ReadError(name: string) | UnknownColumns(names: seq<string>) | WriteError

  /** What a run that reaches its end shows. */
  datatype Report = Report(
    unsupported: seq<string>, fileName: string, sizeKb: real, preview: seq<Row>,
    table: Table, chart: Option<seq<string>>, download: Option<Download>)

  datatype Outcome =
    | NoUpload
    | Crashed(unsupported: seq<string>, failure: Failure)
    | Shown(report: Report)

  /** `file.size/1024` (line 29): the size in kilobytes, as an exact
      quotient. */
  function Kilobytes(size: nat): (kb: real)
    ensures kb * 1024.0 == size as real && kb >= 0.0
  {
    size as real / 1024.0
  }

  /** `df.head()`: the first five rows, or all of them if there are
      fewer. */
  function Head(t: Table): (r: seq<Row>)
    ensures |r| == if |t.rows| < 5 then |t.rows| else 5
    ensures forall i :: 0 <= i < |r| ==> r[i] == t.rows[i]
  {
    if |t.rows| < 5 then t.rows else t.rows[..5]
  }

  /** The two cleaning buttons (lines 37-49), which appear only once the
      cleaning checkbox is ticked; duplicates go first. */
  function Clean(t: Table, c: Choices): (r: Table)
    requires Valid(t)
    ensures Valid(r) && r.columns == t.columns && |r.rows| <= |t.rows|
    ensures !c.cleaning ==> r == t
  {
    var deduped := if c.cleaning && c.removeDuplicates then Cleaning.DropDuplicates(t) else t;
    if c.cleaning && c.fillMissing then Cleaning.FillMissingMeans(deduped) else deduped
  }

  /** The positions of the numeric columns, in table order. */
  function NumericPositions(cols: seq<Column>): (r: seq<nat>)
    ensures forall k :: 0 <= k < |r| ==> r[k] < |cols| && cols[r[k]].kind == Numeric
    ensures forall k, l :: 0 <= k < l < |r| ==> r[k] < r[l]
    ensures forall j :: 0 <= j < |cols| && cols[j].kind == Numeric ==> j in r
    decreases |cols|
  {
    if cols == [] then []
    else
      var n := |cols| - 1;
      NumericPositions(cols[..n]) + (if cols[n].kind == Numeric then [n] else [])
  }

  /** `select_dtypes(include="number").iloc[:, :2]` (line 59): the first
      two numeric columns, or as many as there are. */
  function ChartPositions(cols: seq<Column>): (r: seq<nat>)
    ensures |r| <= 2
    ensures forall k :: 0 <= k < |r| ==> r[k] < |cols| && cols[r[k]].kind == Numeric
    ensures forall k, l :: 0 <= k < l < |r| ==> r[k] < r[l]
    ensures forall j :: 0 <= j < |cols| && cols[j].kind == Numeric ==>
      j in r || (|r| == 2 && r[1] < j)
  {
    var p := NumericPositions(cols);
    var r := if |p| <= 2 then p else p[..2];
    assert forall j :: 0 <= j < |cols| && cols[j].kind == Numeric ==> j in r || (|r| == 2 && r[1] < j) by {
      forall j | 0 <= j < |cols| && cols[j].kind == Numeric
        ensures j in r || (|r| == 2 && r[1] < j)
      {
        var m :| 0 <= m < |p| && p[m] == j;
        if m >= 2 {
          assert p[1] < p[m];
        }
      }
    }
    r
  }

  function ChartColumns(cols: seq<Column>): (r: seq<string>)
    ensures var p := NumericPositions(cols);
      |r| == (if |p| < 2 then |p| else 2) &&
      forall k :: 0 <= k < |r| ==> r[k] == cols[p[k]].name
  {
    var r := ChartPositions(cols);
    seq(|r|, k requires 0 <= k < |r| => cols[r[k]].name)
  }

  /** What the script shows after its loop, for the table `t` the loop
      left in `df`, the last uploaded file and the messages shown so far. */
  function Present(t: Table, file: Upload, errors: seq<string>, write: Writer, c: Choices): Outcome
    requires Valid(t)
  {
    var cleaned := Clean(t, c);
    Finish(Select(cleaned, c.selection.GetOr(Names(cleaned.columns))), file, errors, Head(t), write, c)
  }

  /** Lines 54-75, once the selection is known: a `KeyError` if it names an
      unknown column, an exception if the writer raises, otherwise the
      report, the chart and the download. */
  function Finish(selected: Result<Table, seq<string>>, file: Upload, errors: seq<string>,
                  preview: seq<Row>, write: Writer, c: Choices): Outcome
  {
    match selected
    case Err(missing) => Crashed(errors, UnknownColumns(missing))
    case Ok(s) =>
      match Offered(s, file, write, c)
      case Err(failure) => Crashed(errors, failure)
      case Ok(download) =>
        Shown(Report(
          errors, file.name, Kilobytes(file.size), preview, s,
          if c.showChart then Some(ChartColumns(s.columns)) else None,
          download))
  }

  /** The download offered once the Convert button is pressed: the table
      in the chosen format, under the last file's name with its extension
      replaced; the run fails if the writer raises. */
  function Offered(s: Table, file: Upload, write: Writer, c: Choices): Result<Option<Download>, Failure> {
    if !c.convert then Ok(None)
    else
      match Planned(s, file.name, Extension(file.name), c.target, write)
      case None => Err(WriteError)
      case Some(d) => Ok(Some(d))
  }

  /** The outcome of one run, as a function of the uploads, the readers,
      the writers and the widgets' answers. */
  function RunSpec(files: seq<Upload>, read: Reader, write: Writer, c: Choices): Outcome
    requires ReadsValid(read)
  {
    if files == [] then NoUpload
    else
      match ScanAll(files, Detect, read)
      case ReadFailed(name, errors) => Crashed(errors, ReadError(name))
      case Scanning(None, errors) => Crashed(errors, NoReadableFile)
      case Scanning(Some(t), errors) => Present(t, files[|files| - 1], errors, write, c)
  }

  /** The cleaning section (lines 35-49): `df` is changed in place by
      whichever buttons are pressed. */
  method CleanFrame(df: Frames.Frame, c: Choices)
    requires Valid(df.Value())
    modifies df
    ensures df.Value() == Clean(old(df.Value()), c)
  {
    if c.cleaning {
      if c.removeDuplicates {
        df.DropDuplicates();
      }
      if c.fillMissing {
        df.FillMissing();
      }
    }
  }

  /** Lines 62-75: the Convert button, with the file extension of line 18. */
  method ConvertButton(selected: Table, file: Upload, write: Writer, c: Choices)
    returns (download: Result<Option<Download>, Failure>)
    ensures download == Offered(selected, file, write, c)
  {
    download := Ok(None);
    if c.convert {
      var fileExt := Extension(file.name);
      var d := Convert(selected, file.name, fileExt, c.target, write);
      if d.None? {
        return Err(WriteError);
      }
      download := Ok(d);
    }
  }

  /** Lines 56-75: the chart columns and, when the Convert button is
      pressed, the download. */
  method Conclude(selected: Table, file: Upload, errors: seq<string>, preview: seq<Row>,
                  write: Writer, c: Choices)
    returns (out: Outcome)
    ensures out == Finish(Ok(selected), file, errors, preview, write, c)
  {
    var chart := None;
    if c.showChart {
      chart := Some(ChartColumns(selected.columns));
    }
    var download := ConvertButton(selected, file, write, c);
    if download.Err? {
      return Crashed(errors, download.error);
    }
    out := Shown(Report(errors, file.name, Kilobytes(file.size), preview, selected, chart, download.value));
  }

  /** Lines 27-75, on the frame `df` that the loop left behind. */
  method ShowTable(t: Table, file: Upload, errors: seq<string>, write: Writer, c: Choices)
    returns (out: Outcome)
    requires Valid(t)
    ensures out == Present(t, file, errors, write, c)
  {
    var df := new Frames.Frame(t);
    var preview := Head(df.Value());
    CleanFrame(df, c);
    var columns := c.selection.GetOr(Names(df.columns));
    var selected := Select(df.Value(), columns);
    if selected.Err? {
      return Crashed(errors, UnknownColumns(selected.error));
    }
    out := Conclude(selected.value, file, errors, preview, write, c);
  }

  /** One run of the script. */
  method Run(files: seq<Upload>, read: Reader, write: Writer, c: Choices) returns (out: Outcome)
    requires ReadsValid(read)
    ensures out == RunSpec(files, read, write, c)
  {
    if files == [] {
      return NoUpload;
    }
    var scan := ReadUploads(files, read);
    if scan.ReadFailed? {
      return Crashed(scan.unsupported, ReadError(scan.name));
    }
    if scan.table.None? {
      return Crashed(scan.unsupported, NoReadableFile);
    }
    out := ShowTable(scan.table.value, files[|files| - 1], scan.unsupported, write, c);
  }

  /** Uploads of which none is a CSV or Excel file end in the `NameError`
      of line 33, after one error message per file. */
  lemma NoReadableFileCrashes(files: seq<Upload>, read: Reader, write: Writer, c: Choices)
    requires ReadsValid(read)
    requires files != [] && forall j :: 0 <= j < |files| ==> !Supported(files[j], Detect)
    ensures RunSpec(files, read, write, c) == Crashed(UnsupportedExtensions(files, Detect), NoReadableFile)
    ensures |UnsupportedExtensions(files, Detect)| == |files| > 0
    ensures forall j :: 0 <= j < |files| ==>
      UnsupportedExtensions(files, Detect)[j] == Detect(files[j].name).error
  {
    ScanAllCharacterised(files, Detect, read);
    EveryFileUnsupported(files, Detect);
  }

  /** A reader that raises ends the run at that file: the files after it
      are never looked at, and only the messages before it were shown. */
  lemma ReadErrorStopsRun(files: seq<Upload>, read: Reader, write: Writer, c: Choices)
    requires ReadsValid(read)
    requires FirstFailure(files, Detect, read) >= 0
    ensures var k := FirstFailure(files, Detect, read);
      RunSpec(files, read, write, c) ==
        Crashed(UnsupportedExtensions(files[..k], Detect), ReadError(files[k].name))
  {
    ScanAllCharacterised(files, Detect, read);
  }

  /** A writer that raises when the Convert button is pressed ends the run
      with that exception: no report and no download. */
  lemma WriteErrorStopsRun(s: Table, file: Upload, errors: seq<string>, preview: seq<Row>,
                           write: Writer, c: Choices)
    requires c.convert
    ensures write(FormatOf(c.target), s, false).None? <==>
      Finish(Ok(s), file, errors, preview, write, c) == Crashed(errors, WriteError)
  {
  }

  /** The default selection, every column in table order, keeps the
      cleaned table whole. */
  lemma DefaultSelectionKeepsTable(t: Table, file: Upload, errors: seq<string>, write: Writer, c: Choices)
    requires Valid(t) && c.selection.None?
    ensures Present(t, file, errors, write, c) == Finish(Ok(Clean(t, c)), file, errors, Head(t), write, c)
  {
    SelectAllColumns(Clean(t, c));
  }

  /** With the default column selection, a run whose readers succeed and
      that holds a supported file shows the last file's name and size,
      previews the last supported file's table, and exports that table as
      cleaned, with every column, under the last file's name. */
  lemma DefaultRunReport(files: seq<Upload>, read: Reader, write: Writer, c: Choices)
    requires ReadsValid(read) && c.selection.None?
    requires FirstFailure(files, Detect, read) == -1 && LastSupported(files, Detect) >= 0
    ensures LastTable(files, Detect, read).Some?
    ensures var t := LastTable(files, Detect, read).value;
      RunSpec(files, read, write, c) ==
        Finish(Ok(Clean(t, c)), files[|files| - 1], UnsupportedExtensions(files, Detect), Head(t), write, c)
  {
    ScanAllCharacterised(files, Detect, read);
    var t := LastTable(files, Detect, read).value;
    DefaultSelectionKeepsTable(t, files[|files| - 1], UnsupportedExtensions(files, Detect), write, c);
  }

  /** A later supported file replaces the table of every earlier one. */
  lemma EarlierTablesDiscarded(earlier: seq<Upload>, f: Upload, t: Table, read: Reader)
    requires FirstFailure(earlier, Detect, read) == -1
    requires Supported(f, Detect) && read(Detect(f.name).value, f.payload) == Some(t)
    ensures ScanAll(earlier + [f], Detect, read) == Scanning(Some(t), UnsupportedExtensions(earlier, Detect))
  {
    ScanAllCharacterised(earlier, Detect, read);
    assert (earlier + [f])[..|earlier|] == earlier;
  }

  lemma CsvNameExtension()
    ensures Extension("a.csv") == ".csv"
  {
    var csv := ".csv";
    assert Lower(csv) == csv by {
      assert LowerChar('c') == 'c' && LowerChar('s') == 's' && LowerChar('v') == 'v';
    }
    ExtensionOf("a.csv", "a", csv, csv);
  }

  lemma DetectCsvName()
    ensures Detect("a.csv") == Ok(Csv)
  {
    CsvNameExtension();
  }

  lemma DetectTextName()
    ensures Detect("b.txt") == Err(".txt")
  {
    var txt := ".txt";
    assert Lower(txt) == txt by {
      assert LowerChar('t') == 't' && LowerChar('x') == 'x';
    }
    ExtensionOf("b.txt", "b", txt, txt);
  }

  /** The upload loop over "a.csv" then "b.txt" keeps the CSV table and
      one error message, for ".txt". */
  lemma ScanCsvThenText(a: Upload, b: Upload, t: Table, read: Reader)
    requires a.name == "a.csv" && b.name == "b.txt" && read(Csv, a.payload) == Some(t)
    ensures ScanAll([a, b], Detect, read) == Scanning(Some(t), [".txt"])
  {
    DetectCsvName();
    DetectTextName();
    ReadThenReject(a, b, t, ".txt", Detect, read);
  }

  /** A readable supported file followed by an unsupported one. */
  lemma ReadThenReject(a: Upload, b: Upload, t: Table, e: string, classify: Classifier, read: Reader)
    requires Supported(a, classify) && read(classify(a.name).value, a.payload) == Some(t)
    requires classify(b.name) == Err(e)
    ensures ScanAll([a, b], classify, read) == Scanning(Some(t), [e])
  {
    var files := [a, b];
    assert files[..1] == [a] && [a][..0] == [];
    assert ScanAll([a], classify, read) == Scanning(Some(t), []);
  }

  /** Converting "b.txt", whose extension is ".txt", to CSV names the
      download "b.csv". */
  lemma TextNameToCsv()
    ensures Extension("b.txt") == ".txt"
    ensures OutputName("b.txt", Extension("b.txt"), ToCsv) == "b.csv"
  {
    DetectTextName();
    ReplaceTextName();
  }

  lemma ReplaceTextName()
    ensures ReplaceAll("b.txt", ".txt", ".csv") == "b.csv"
  {
    var s := "b.txt";
    assert s[..4][0] == 'b';
    assert s[1..] == ".txt";
    assert ".txt"[..4] == ".txt" && ".txt"[4..] == [];
  }

  /** A CSV file followed by a text file: the CSV table is the one exported,
      under the text file's name with ".txt" replaced by ".csv". */
  lemma TrailingUnsupportedFile(t: Table, p: seq<bv8>, q: seq<bv8>, data: seq<bv8>, read: Reader, write: Writer)
    requires ReadsValid(read) && read(Csv, p) == Some(t) && write(Csv, t, false) == Some(data)
    ensures var c := Choices(false, false, false, None, false, ToCsv, true);
      RunSpec([Upload("a.csv", 1024, p), Upload("b.txt", 2048, q)], read, write, c) ==
        Shown(Report([".txt"], "b.txt", 2.0, Head(t), t, None,
                     Some(Download("b.csv", "text/csv", data))))
  {
    var a, b := Upload("a.csv", 1024, p), Upload("b.txt", 2048, q);
    var c := Choices(false, false, false, None, false, ToCsv, true);
    ScanCsvThenText(a, b, t, read);
    assert Valid(t);
    DefaultSelectionKeepsTable(t, b, [".txt"], write, c);
    TextNameToCsv();
  }
}
