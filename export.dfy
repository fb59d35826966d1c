/** Conversion of the cleaned table (app.py lines 63-75): the radio choice
    picks a writer, a MIME type and the new extension; the new name is the
    uploaded name with `str.replace(file_ext, ext)`; the table is written,
    without its index, into a fresh `BytesIO` buffer that is rewound before
    it is handed to the download button. */
module Export {
  import opened Outcomes
  import opened FileNames
  import opened Tables

  /** The two choices of the "Convert to" radio button. */
  datatype Target = ToCsv | ToExcel

  /** The serialisers `to_csv` and `to_excel`, which lie outside the model:
      given the format, the table, and whether a row-index column is
      written, the bytes they produce, or None when they raise (`to_excel`
      does, for instance, without an Excel engine or for a sheet too
      large). */
  type Writer = (Format, Table, bool) -> Option<seq<bv8>>

  function FormatOf(target: Target): Format {
    match target
    case ToCsv => Csv
    case ToExcel => Xlsx
  }

  function TargetExtension(target: Target): (e: string)
    ensures IsExtension(e) && Lower(e) == e
  {
    match target
    case ToCsv =>
      assert ".csv"[1..] == "csv";
      ".csv"
    case ToExcel =>
      assert ".xlsx"[1..] == "xlsx";
      ".xlsx"
  }

  /** The content type sent with the download; the two are distinct. */
  function Mime(target: Target): (m: string)
    ensures m == "text/csv" <==> target == ToCsv
    ensures m == "application/vnd.openxmlformats-officedocument.spreadsheetml.sheet" <==> target == ToExcel
  {
    match target
    case ToCsv => "text/csv"
    case ToExcel => "application/vnd.openxmlformats-officedocument.spreadsheetml.sheet"
  }

  /** `file.name.replace(file_ext, ext)`: every exact-case occurrence of the
      lower-cased upload extension is replaced, wherever it stands. A name
      without such an occurrence, and a conversion to the format the name
      already carries, leave the name as it is. */
  function OutputName(name: string, fileExt: string, target: Target): (r: string)
    ensures fileExt != [] && !Occurs(name, fileExt) ==> r == name
    ensures fileExt == TargetExtension(target) ==> r == name
  {
    var ext := TargetExtension(target);
    assert fileExt != [] && !Occurs(name, fileExt) ==> ReplaceAll(name, fileExt, ext) == name by {
      if fileExt != [] && !Occurs(name, fileExt) {
        ReplaceAllAbsent(name, fileExt, ext);
      }
    }
    ReplaceAll(name, fileExt, ext)
  }

  /** The first occurrence of the upload extension becomes the target
      extension, and the rest of the name after it is converted in the
      same way: every occurrence, left to right, is replaced. */
  lemma OutputNameFirst(x: string, fileExt: string, y: string, target: Target)
    requires fileExt != []
    requires forall i :: 0 <= i < |x| ==> !OccursAt(x + fileExt + y, fileExt, i)
    ensures OutputName(x + fileExt + y, fileExt, target) ==
      x + TargetExtension(target) + OutputName(y, fileExt, target)
  {
    ReplaceAllFirst(x, fileExt, y, TargetExtension(target));
  }

  /** For an ordinary name, whose lower-case extension closes it and occurs
      nowhere else, the new name is the stem with the target's extension,
      and uploading it again selects the target's reader. */
  lemma ConvertedNameRoundTrip(stem: string, e: string, target: Target)
    requires IsExtension(e) && Lower(e) == e
    requires SplitExt(stem + e) == (stem, e)
    requires forall i :: OccursAt(stem + e, e, i) ==> i == |stem|
    ensures Extension(stem + e) == e
    ensures OutputName(stem + e, e, target) == stem + TargetExtension(target)
    ensures Detect(OutputName(stem + e, e, target)) == Ok(FormatOf(target))
  {
    var ext := TargetExtension(target);
    ReplaceSoleSuffix(stem, e, ext);
    SplitExtSwap(stem, e, ext);
  }

  /** An upper-case extension survives the conversion: "Report.CSV" is
      still called "Report.CSV" after conversion to Excel. */
  lemma UpperCaseNameUnchanged()
    ensures OutputName("Report.CSV", Extension("Report.CSV"), ToExcel) == "Report.CSV"
  {
    DetectUpperCase();
    ReplaceIsCaseSensitive();
  }

  /** Every occurrence is replaced: "a.csv.csv" becomes "a.xlsx.xlsx". */
  lemma EveryOccurrenceReplaced()
    ensures OutputName("a.csv.csv", Extension("a.csv.csv"), ToExcel) == "a.xlsx.xlsx"
  {
    var e := ".csv";
    assert Lower(e) == e by {
      assert LowerChar('c') == 'c' && LowerChar('s') == 's' && LowerChar('v') == 'v';
    }
    ExtensionOf("a.csv.csv", "a.csv", e, e);
    ReplaceEveryOccurrence();
  }

  /** `b[..p] + data` followed by whatever of `b` lies beyond: what a write
      of `data` at position `p` leaves in a `BytesIO` buffer. */
  function Overwrite(b: seq<bv8>, p: nat, data: seq<bv8>): (r: seq<bv8>)
    requires p <= |b|
    ensures |r| == if p + |data| <= |b| then |b| else p + |data|
    ensures r[..p] == b[..p]
    ensures r[p..p + |data|] == data
    ensures r[p + |data|..] == if p + |data| <= |b| then b[p + |data|..] else []
  {
    var r := b[..p] + data + (if p + |data| <= |b| then b[p + |data|..] else []);
    assert r[..p] == b[..p];
    assert r[p..p + |data|] == data;
    r
  }

  /** An in-memory byte stream (`io.BytesIO`): its contents and the
      position the next read or write starts at. */
  class Buffer {
    var bytes: seq<bv8>
    var pos: nat

    ghost predicate Valid()
      reads this
    {
      pos <= |bytes|
    }

    constructor ()
      ensures Valid() && bytes == [] && pos == 0
    {
      bytes := [];
      pos := 0;
    }

    /** What a reader of the buffer receives: everything from the current
        position on. */
    function Unread(): seq<bv8>
      reads this
      requires Valid()
    {
      bytes[pos..]
    }

    method Write(data: seq<bv8>)
      requires Valid()
      modifies this
      ensures Valid()
      ensures bytes == Overwrite(old(bytes), old(pos), data)
      ensures pos == old(pos) + |data|
    {
      bytes := Overwrite(bytes, pos, data);
      pos := pos + |data|;
    }

    /** `seek(0)`. */
    method Rewind()
      requires Valid()
      modifies this
      ensures Valid() && bytes == old(bytes) && pos == 0
    {
      pos := 0;
    }
  }

  /** What the download button receives. */
  datatype Download = Download(fileName: string, mime: string, data: seq<bv8>)

  /** The download a conversion produces: the name and type chosen above,
      and the table serialised in the target format with no index column;
      None when the writer raises. */
  function Planned(t: Table, name: string, fileExt: string, target: Target, write: Writer): (r: Option<Download>)
    ensures r.None? <==> write(FormatOf(target), t, false).None?
    ensures r.Some? ==> r.value.data == write(FormatOf(target), t, false).value
    ensures r.Some? ==> r.value.fileName == OutputName(name, fileExt, target)
    ensures r.Some? ==> r.value.mime == Mime(target)
  {
    match write(FormatOf(target), t, false)
    case None => None
    case Some(bytes) => Some(Download(OutputName(name, fileExt, target), Mime(target), bytes))
  }

  /** The body of the Convert button (app.py lines 65-75). The writer runs
      first, so when it raises no name is computed and nothing is offered.
      Otherwise, because the buffer is rewound after the write, the
      download carries the whole serialised table. */
  method Convert(t: Table, name: string, fileExt: string, target: Target, write: Writer)
    returns (d: Option<Download>)
    ensures d == Planned(t, name, fileExt, target, write)
    ensures d.None? <==> write(FormatOf(target), t, false).None?
    ensures d.Some? ==> d.value.data == write(FormatOf(target), t, false).value
  {
    var buffer := new Buffer();
    var fileName, mime, written;
    if target == ToCsv {
      written := write(Csv, t, false);
      if written.None? {
        return None;
      }
      buffer.Write(written.value);
      fileName := OutputName(name, fileExt, ToCsv);
      mime := "text/csv";
    } else {
      written := write(Xlsx, t, false);
      if written.None? {
        return None;
      }
      buffer.Write(written.value);
      fileName := OutputName(name, fileExt, ToExcel);
      mime := "application/vnd.openxmlformats-officedocument.spreadsheetml.sheet";
    }
    buffer.Rewind();
    assert buffer.Unread() == written.value;
    d := Some(Download(fileName, mime, buffer.Unread()));
  }
}
