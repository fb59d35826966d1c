/** File-name handling of app.py: the extension test that picks a reader
    (POSIX `os.path.splitext` followed by `str.lower`), and Python's
    `str.replace`, which builds the name of the converted file. */
module FileNames {
  import opened Outcomes

  /** The two input formats the script can read. */
  datatype Format = Csv | Xlsx

  // ---------------------------------------------------------------------
  // Case folding
  // ---------------------------------------------------------------------

  /** Lower-cases one ASCII letter; every other character is kept. */
  function LowerChar(c: char): char {
    if 'A' <= c <= 'Z' then (c as int - 'A' as int + 'a' as int) as char else c
  }

  /** `s.lower()`, restricted to ASCII letters. Case folding never creates
      or removes a '.' or a '/', so it cannot move an extension boundary. */
  function Lower(s: string): (r: string)
    ensures |r| == |s|
    ensures forall i :: 0 <= i < |s| ==> (r[i] == '.' <==> s[i] == '.')
    ensures forall i :: 0 <= i < |s| ==> (r[i] == '/' <==> s[i] == '/')
  {
    seq(|s|, i requires 0 <= i < |s| => LowerChar(s[i]))
  }

  lemma {:induction false} LowerIdempotent(s: string)
    ensures Lower(Lower(s)) == Lower(s)
  {
    forall i | 0 <= i < |s| ensures Lower(Lower(s))[i] == Lower(s)[i] {
      assert Lower(s)[i] == LowerChar(s[i]);
    }
  }

  lemma LowerSlice(s: string, a: nat, b: nat)
    requires a <= b <= |s|
    ensures Lower(s)[a..b] == Lower(s[a..b])
  {
  }

  lemma LowerPrefix(s: string, k: nat)
    requires k <= |s|
    ensures Lower(s)[..k] == Lower(s[..k])
  {
  }

  lemma LowerSuffix(s: string, k: nat)
    requires k <= |s|
    ensures Lower(s)[k..] == Lower(s[k..])
  {
  }

  // ---------------------------------------------------------------------
  // os.path.splitext (POSIX flavour: separator '/', extension separator '.')
  // ---------------------------------------------------------------------

  /** `s.rfind(c)`: the index of the last `c` in `s`, or -1. */
  function RFind(s: string, c: char): (k: int)
    ensures -1 <= k < |s|
    ensures k >= 0 ==> s[k] == c
    ensures forall j :: k < j < |s| ==> s[j] != c
    decreases |s|
  {
    if s == [] then -1
    else if s[|s| - 1] == c then |s| - 1
    else RFind(s[..|s| - 1], c)
  }

  /** Characters appended after the last `c` do not move it. */
  lemma {:induction false} RFindAppend(a: string, b: string, c: char)
    requires c !in b
    ensures RFind(a + b, c) == RFind(a, c)
    decreases |b|
  {
    if b == [] {
      assert a + b == a;
    } else {
      assert (a + b)[..|a + b| - 1] == a + b[..|b| - 1];
      RFindAppend(a, b[..|b| - 1], c);
    }
  }

  /** The last `c` of `stem + e` is the first character of `e` when `e`
      holds no other `c`. */
  lemma RFindAtStart(stem: string, e: string, c: char)
    requires |e| > 0 && e[0] == c && c !in e[1..]
    ensures RFind(stem + e, c) == |stem|
  {
    var s := stem + [c];
    assert s[|s| - 1] == c;
    assert RFind(s, c) == |stem|;
    SplitAfterFirst(stem, e);
    RFindAppend(s, e[1..], c);
  }

  lemma SplitAfterFirst(stem: string, e: string)
    requires |e| > 0
    ensures stem + e == (stem + [e[0]]) + e[1..]
  {
    assert e == [e[0]] + e[1..];
  }

  /** Case folding does not move the last '.' or the last '/'. */
  lemma {:induction false} RFindLower(s: string, c: char)
    requires c == '.' || c == '/'
    ensures RFind(Lower(s), c) == RFind(s, c)
    decreases |s|
  {
    if s != [] {
      LowerSlice(s, 0, |s| - 1);
      assert Lower(s)[..|s| - 1] == Lower(s)[0..|s| - 1];
      assert s[..|s| - 1] == s[0..|s| - 1];
      RFindLower(s[..|s| - 1], c);
    }
  }

  predicate AllDots(s: string) {
    forall i :: 0 <= i < |s| ==> s[i] == '.'
  }

  lemma AllDotsLower(s: string)
    ensures AllDots(Lower(s)) <==> AllDots(s)
  {
  }

  /** True when `e` has the shape of a splitext extension: a '.' followed by
      characters that are neither '.' nor '/'. */
  predicate IsExtension(e: string) {
    |e| > 0 && e[0] == '.' && '.' !in e[1..] && '/' !in e[1..]
  }

  /** `os.path.splitext(p)`: the extension runs from the last '.' of the
      last path component to the end, unless everything in that component
      before the '.' is itself a dot (".csv", "..csv" have no extension). */
  function SplitExt(p: string): (r: (string, string))
    ensures r.0 + r.1 == p
    ensures r.1 == [] || IsExtension(r.1)
  {
    var sep := RFind(p, '/');
    var dot := RFind(p, '.');
    if dot > sep && !AllDots(p[sep + 1..dot]) then
      assert p[dot..][1..] == p[dot + 1..];
      (p[..dot], p[dot..])
    else
      (p, "")
  }

  /** `os.path.splitext(name)[-1].lower()` (app.py line 18). */
  function Extension(name: string): (e: string)
    ensures e == [] || IsExtension(e)
    ensures |e| <= |name|
  {
    var e := SplitExt(name).1;
    assert e != [] ==> Lower(e)[0] == '.' && Lower(e)[1..] == Lower(e[1..]);
    Lower(e)
  }

  /** Where splitext looks in `stem + e`, for a well-formed `e`: the last
      '/' is that of `stem`, and the last '.' is the first character of
      `e`. */
  lemma SplitPoints(stem: string, e: string)
    requires IsExtension(e)
    ensures RFind(stem + e, '/') == RFind(stem, '/')
    ensures RFind(stem + e, '.') == |stem|
    ensures (stem + e)[RFind(stem, '/') + 1..|stem|] == stem[RFind(stem, '/') + 1..]
    ensures (stem + e)[..|stem|] == stem && (stem + e)[|stem|..] == e
  {
    RFindAppend(stem, e, '/');
    RFindAtStart(stem, e, '.');
    var sep := RFind(stem, '/');
    assert (stem + e)[sep + 1..|stem|] == stem[sep + 1..];
  }

  /** The extension of `stem + e`, for a well-formed `e`, is `e` exactly
      when the last path component of `stem` is not made of dots only. */
  lemma SplitExtAt(stem: string, e: string)
    requires IsExtension(e)
    ensures SplitExt(stem + e) == (stem, e) <==> !AllDots(stem[RFind(stem, '/') + 1..])
  {
    SplitPoints(stem, e);
    var p, sep := stem + e, RFind(stem, '/');
    if AllDots(stem[sep + 1..]) {
      assert SplitExt(p).1 == [] != e;
    } else {
      assert SplitExt(p) == (p[..|stem|], p[|stem|..]);
    }
  }

  /** Case folding commutes with splitext, because splitext only looks at
      the positions of '.' and '/', which case folding keeps. */
  lemma {:induction false} SplitExtLower(p: string)
    ensures SplitExt(Lower(p)) == (Lower(SplitExt(p).0), Lower(SplitExt(p).1))
  {
    RFindLower(p, '/');
    RFindLower(p, '.');
    var sep, dot := RFind(p, '/'), RFind(p, '.');
    if dot > sep && !AllDots(p[sep + 1..dot]) {
      CutLower(p, sep, dot);
    } else {
      if dot > sep {
        LowerSlice(p, sep + 1, dot);
        AllDotsLower(p[sep + 1..dot]);
      }
      NoCut(p, sep, dot);
      NoCut(Lower(p), sep, dot);
      assert Lower("") == "";
    }
  }

  /** `SplitExtLower` where splitext cuts at `dot`. */
  lemma CutLower(p: string, sep: int, dot: int)
    requires sep == RFind(p, '/') == RFind(Lower(p), '/')
    requires dot == RFind(p, '.') == RFind(Lower(p), '.')
    requires dot > sep && !AllDots(p[sep + 1..dot])
    ensures SplitExt(Lower(p)) == (Lower(SplitExt(p).0), Lower(SplitExt(p).1))
  {
    var q := Lower(p);
    LowerSlice(p, sep + 1, dot);
    AllDotsLower(p[sep + 1..dot]);
    CutAt(p, sep, dot);
    CutAt(q, sep, dot);
    LowerPrefix(p, dot);
    LowerSuffix(p, dot);
  }

  /** Where splitext cuts, given its last '/' and last '.'. */
  lemma CutAt(p: string, sep: int, dot: int)
    requires sep == RFind(p, '/') && dot == RFind(p, '.')
    requires dot > sep && !AllDots(p[sep + 1..dot])
    ensures SplitExt(p) == (p[..dot], p[dot..])
  {
  }

  /** Where splitext does not cut. */
  lemma NoCut(p: string, sep: int, dot: int)
    requires sep == RFind(p, '/') && dot == RFind(p, '.')
    requires dot <= sep || AllDots(p[sep + 1..dot])
    ensures SplitExt(p) == (p, "")
  {
  }

  /** Splitting `stem + e` at its extension gives back `stem` and `e` for
      every well-formed `e`, as soon as it does so for one. */
  lemma {:induction false} SplitExtSwap(stem: string, e: string, e': string)
    requires IsExtension(e) && IsExtension(e')
    requires SplitExt(stem + e) == (stem, e)
    ensures SplitExt(stem + e') == (stem, e')
  {
    SplitExtAt(stem, e);
    SplitExtAt(stem, e');
  }

  // ---------------------------------------------------------------------
  // Reader dispatch (app.py lines 18-24)
  // ---------------------------------------------------------------------

  /** Chooses the reader for an uploaded name; any extension other than
      ".csv" and ".xlsx" is reported back as unsupported. */
  function Detect(name: string): (r: Result<Format, string>)
    ensures r == Ok(Csv) <==> Extension(name) == ".csv"
    ensures r == Ok(Xlsx) <==> Extension(name) == ".xlsx"
    ensures r.Err? <==> Extension(name) != ".csv" && Extension(name) != ".xlsx"
    ensures r.Err? ==> r.error == Extension(name)
  {
    var ext := Extension(name);
    if ext == ".csv" then Ok(Csv)
    else if ext == ".xlsx" then Ok(Xlsx)
    else Err(ext)
  }

  /** The extension test ignores case: two names that differ only in the
      case of their letters are dispatched identically. */
  lemma {:induction false} DetectIgnoresCase(a: string, b: string)
    requires Lower(a) == Lower(b)
    ensures Extension(a) == Extension(b)
    ensures Detect(a) == Detect(b)
  {
    SplitExtLower(a);
    SplitExtLower(b);
    LowerIdempotent(SplitExt(a).1);
    LowerIdempotent(SplitExt(b).1);
  }

  /** Upper-case extensions are accepted: "Report.CSV" is read as CSV. */
  lemma DetectUpperCase()
    ensures Detect("Report.CSV") == Ok(Csv)
  {
    UpperCaseExtension();
  }

  lemma UpperCaseExtension()
    ensures Extension("Report.CSV") == ".csv"
  {
    var e := ".CSV";
    assert Lower(e) == ".csv" by {
      assert LowerChar('C') == 'c' && LowerChar('S') == 's' && LowerChar('V') == 'v';
    }
    ExtensionOf("Report.CSV", "Report", e, ".csv");
  }

  /** Only the last suffix counts: "data.csv.txt" is rejected as ".txt". */
  lemma DetectLastSuffix()
    ensures Detect("data.csv.txt") == Err(".txt")
  {
    var e := ".txt";
    assert Lower(e) == e by {
      assert LowerChar('t') == 't' && LowerChar('x') == 'x';
    }
    ExtensionOf("data.csv.txt", "data.csv", e, e);
  }

  /** A leading dot does not start an extension: ".csv" is rejected, with
      the empty extension in the message. */
  lemma DetectDotFile()
    ensures Detect(".csv") == Err("")
  {
    var p := ".csv";
    assert p[1..] == "csv";
    BareExtension(p);
    assert Lower("") == "";
  }

  /** A name that is nothing but a well-formed extension, such as ".csv",
      has no extension: the dot starts the last component. */
  lemma BareExtension(e: string)
    requires IsExtension(e)
    ensures SplitExt(e) == (e, "")
  {
    BareRFinds(e);
    NoCut(e, -1, 0);
  }

  lemma BareRFinds(e: string)
    requires IsExtension(e)
    ensures RFind(e, '/') == -1 && RFind(e, '.') == 0
  {
    var h, t := e[..1], e[1..];
    assert h + t == e;
    RFindAppend(h, t, '/');
    RFindAppend(h, t, '.');
    assert h[..0] == [];
  }

  /** A name without a dot is rejected with the empty extension. */
  lemma DetectNoExtension()
    ensures Detect("notes") == Err("")
  {
    var q := "notes";
    assert "" + q == q;
    RFindAppend("", q, '.');
  }

  /** Helper for concrete names: a stem without '/' that has a non-dot
      first character, followed by a well-formed extension. */
  lemma ExtensionOf(name: string, stem: string, e: string, lower: string)
    requires name == stem + e
    requires |stem| > 0 && stem[0] != '.' && '/' !in stem
    requires IsExtension(e) && Lower(e) == lower
    ensures SplitExt(name) == (stem, e)
    ensures Extension(name) == lower
  {
    assert RFind(stem, '/') == -1;
    assert stem[0..] == stem;
    SplitExtAt(stem, e);
  }

  // ---------------------------------------------------------------------
  // str.replace (app.py lines 68 and 73)
  // ---------------------------------------------------------------------

  predicate OccursAt(s: string, pat: string, i: int) {
    0 <= i && i + |pat| <= |s| && s[i..i + |pat|] == pat
  }

  ghost predicate Occurs(s: string, pat: string) {
    exists i :: OccursAt(s, pat, i)
  }

  /** `rep` before every character of `s` and once more at the end: what
      Python's `s.replace("", rep)` produces. */
  function InsertEverywhere(s: string, rep: string): (r: string)
    ensures |r| == |s| + (|s| + 1) * |rep|
    decreases |s|
  {
    if s == [] then rep else rep + [s[0]] + InsertEverywhere(s[1..], rep)
  }

  /** The result starts and ends with `rep`. */
  lemma {:induction false} InsertEverywhereEnds(s: string, rep: string)
    ensures var r := InsertEverywhere(s, rep);
      r[..|rep|] == rep && r[|r| - |rep|..] == rep
    decreases |s|
  {
    if s != [] {
      var tail := InsertEverywhere(s[1..], rep);
      InsertEverywhereEnds(s[1..], rep);
      var r := rep + [s[0]] + tail;
      assert r == InsertEverywhere(s, rep);
      assert r[..|rep|] == rep;
      assert r[|r| - |rep|..] == tail[|tail| - |rep|..];
    }
  }

  /** Each character appended to `s` is followed by one more copy of
      `rep`; with the empty case (`rep` alone) this fixes the whole result. */
  lemma {:induction false} InsertEverywhereSnoc(s: string, c: char, rep: string)
    ensures InsertEverywhere(s + [c], rep) == InsertEverywhere(s, rep) + [c] + rep
    decreases |s|
  {
    if s == [] {
      assert s + [c] == [c] && [c][1..] == [];
      assert InsertEverywhere([c], rep) == rep + [c] + InsertEverywhere([], rep);
    } else {
      var t := s[1..];
      assert (s + [c])[0] == s[0] && (s + [c])[1..] == t + [c];
      assert InsertEverywhere(s + [c], rep) == rep + [s[0]] + InsertEverywhere(t + [c], rep);
      InsertEverywhereSnoc(t, c, rep);
      assert InsertEverywhere(s, rep) == rep + [s[0]] + InsertEverywhere(t, rep);
    }
  }

  /** Python's `s.replace(pat, rep)`: every non-overlapping occurrence of
      `pat`, found left to right and compared case-sensitively, becomes
      `rep`; an empty `pat` matches between every two characters. */
  function ReplaceAll(s: string, pat: string, rep: string): (r: string)
    ensures pat != [] && rep == pat ==> r == s
    decreases |s|
  {
    if pat == [] then InsertEverywhere(s, rep)
    else if |s| < |pat| then s
    else if s[..|pat|] == pat then rep + ReplaceAll(s[|pat|..], pat, rep)
    else [s[0]] + ReplaceAll(s[1..], pat, rep)
  }

  lemma OccursShift(s: string, pat: string, i: int)
    requires |s| > 0 && 0 <= i
    ensures OccursAt(s[1..], pat, i) <==> OccursAt(s, pat, i + 1)
  {
    if i + |pat| <= |s| - 1 {
      assert s[1..][i..i + |pat|] == s[i + 1..i + 1 + |pat|];
    }
  }

  /** Where `pat` does not start the string, its first character is kept. */
  lemma ReplaceAllSkip(s: string, pat: string, rep: string)
    requires pat != [] && |s| > 0 && !OccursAt(s, pat, 0)
    ensures ReplaceAll(s, pat, rep) == [s[0]] + ReplaceAll(s[1..], pat, rep)
  {
  }

  /** Occurrences in `s[1..]` are those of `s` shifted by one. */
  lemma OccursAfterFirst(s: string, pat: string, k: int)
    requires |s| > 0
    requires forall i :: OccursAt(s, pat, i) ==> i == k
    ensures forall i :: OccursAt(s[1..], pat, i) ==> i == k - 1
  {
    forall i | 0 <= i ensures OccursAt(s[1..], pat, i) ==> i == k - 1 {
      OccursShift(s, pat, i);
    }
  }

  /** A name without an exact-case occurrence of the pattern comes back
      unchanged. */
  lemma {:induction false} ReplaceAllAbsent(s: string, pat: string, rep: string)
    requires pat != [] && !Occurs(s, pat)
    ensures ReplaceAll(s, pat, rep) == s
    decreases |s|
  {
    if |s| < |pat| {
    } else {
      assert !OccursAt(s, pat, 0);
      assert s[..|pat|] != pat;
      forall i | 0 <= i ensures !OccursAt(s[1..], pat, i) {
        OccursShift(s, pat, i);
      }
      ReplaceAllAbsent(s[1..], pat, rep);
      assert s == [s[0]] + s[1..];
    }
  }

  /** The leftmost occurrence is replaced and the scan resumes after it:
      when `pat` does not start anywhere inside `x`, the result is `x`,
      then `rep`, then the replacement of what follows the occurrence.
      With `ReplaceAllAbsent` this determines `ReplaceAll` for every
      non-empty pattern. */
  lemma {:induction false} ReplaceAllFirst(x: string, pat: string, y: string, rep: string)
    requires pat != []
    requires forall i :: 0 <= i < |x| ==> !OccursAt(x + pat + y, pat, i)
    ensures ReplaceAll(x + pat + y, pat, rep) == x + rep + ReplaceAll(y, pat, rep)
    decreases |x|
  {
    if x == [] {
      ReplaceAtStart(pat, y, rep);
      assert x + pat + y == pat + y && x + rep == rep;
    } else {
      var t, tail := x[1..], ReplaceAll(y, pat, rep);
      FirstStep(x, pat, y, rep);
      NoOccurrenceShift(x, pat, y);
      ReplaceAllFirst(t, pat, y, rep);
      ConsAssoc(x, rep, tail);
    }
  }

  lemma ConsAssoc(x: string, u: string, v: string)
    requires x != []
    ensures [x[0]] + (x[1..] + u + v) == x + u + v
  {
    assert [x[0]] + x[1..] == x;
  }

  lemma ReplaceAtStart(pat: string, y: string, rep: string)
    requires pat != []
    ensures ReplaceAll(pat + y, pat, rep) == rep + ReplaceAll(y, pat, rep)
  {
    var s := pat + y;
    assert |s| >= |pat|;
    assert s[..|pat|] == pat;
    assert s[|pat|..] == y;
  }

  /** One step of `ReplaceAllFirst`: the first character of `x` is kept. */
  lemma FirstStep(x: string, pat: string, y: string, rep: string)
    requires pat != [] && x != []
    requires !OccursAt(x + pat + y, pat, 0)
    ensures ReplaceAll(x + pat + y, pat, rep) == [x[0]] + ReplaceAll(x[1..] + pat + y, pat, rep)
  {
    var s := x + pat + y;
    ReplaceAllSkip(s, pat, rep);
    assert s[1..] == x[1..] + pat + y;
  }

  /** `x[1..]` holds no occurrence either. */
  lemma NoOccurrenceShift(x: string, pat: string, y: string)
    requires x != []
    requires forall i :: 0 <= i < |x| ==> !OccursAt(x + pat + y, pat, i)
    ensures forall i :: 0 <= i < |x[1..]| ==> !OccursAt(x[1..] + pat + y, pat, i)
  {
    var s := x + pat + y;
    assert s[1..] == x[1..] + pat + y;
    forall i | 0 <= i < |x[1..]| ensures !OccursAt(x[1..] + pat + y, pat, i) {
      OccursShift(s, pat, i);
    }
  }

  /** One step of `ReplaceSoleSuffix`: the first character is kept, and
      the rest still has its only occurrence at its end. */
  lemma SoleSuffixStep(x: string, pat: string, rep: string)
    requires pat != [] && x != []
    requires forall i :: OccursAt(x + pat, pat, i) ==> i == |x|
    ensures ReplaceAll(x + pat, pat, rep) == [x[0]] + ReplaceAll(x[1..] + pat, pat, rep)
    ensures forall i :: OccursAt(x[1..] + pat, pat, i) ==> i == |x[1..]|
  {
    var s := x + pat;
    assert s[1..] == x[1..] + pat;
    assert !OccursAt(s, pat, 0);
    ReplaceAllSkip(s, pat, rep);
    OccursAfterFirst(s, pat, |x|);
  }

  /** When the only occurrence of `pat` is the one closing the name, only
      that one is replaced: "data.csv" with ".csv" -> ".xlsx" gives
      "data.xlsx". */
  lemma {:induction false} ReplaceSoleSuffix(x: string, pat: string, rep: string)
    requires pat != []
    requires forall i :: OccursAt(x + pat, pat, i) ==> i == |x|
    ensures ReplaceAll(x + pat, pat, rep) == x + rep
    decreases |x|
  {
    if x == [] {
      assert x + pat == pat && x + rep == rep;
      assert pat[..|pat|] == pat && pat[|pat|..] == [];
      assert ReplaceAll(pat, pat, rep) == rep + ReplaceAll([], pat, rep);
    } else {
      var y := x[1..];
      SoleSuffixStep(x, pat, rep);
      ReplaceSoleSuffix(y, pat, rep);
      assert [x[0]] + (y + rep) == ([x[0]] + y) + rep;
      assert [x[0]] + y == x;
    }
  }

  /** Every occurrence is replaced, not only the suffix. */
  lemma ReplaceEveryOccurrence()
    ensures ReplaceAll("a.csv.csv", ".csv", ".xlsx") == "a.xlsx.xlsx"
  {
    var s := "a.csv.csv";
    assert s[..4][0] == 'a';
    assert s[1..] == ".csv.csv";
    assert s[1..][..4] == ".csv" && s[1..][4..] == ".csv";
    assert ".csv"[..4] == ".csv" && ".csv"[4..] == [];
  }

  /** The comparison is case-sensitive. */
  lemma ReplaceIsCaseSensitive()
    ensures ReplaceAll("Report.CSV", ".csv", ".xlsx") == "Report.CSV"
  {
    var t := "Report.CSV";
    forall i | 0 <= i ensures !OccursAt(t, ".csv", i) {
      if i + 4 <= |t| {
        assert t[i..i + 4][1] == t[i + 1];
      }
    }
    ReplaceAllAbsent(t, ".csv", ".xlsx");
  }

  /** An empty pattern inserts the replacement around every character. */
  lemma ReplaceEmptyPattern()
    ensures ReplaceAll("ab", "", ".csv") == ".csva.csvb.csv"
  {
    assert "ab"[1..] == "b" && "b"[1..] == "";
  }
}
