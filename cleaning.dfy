/** The two cleaning operations of app.py: `df.drop_duplicates()` with
    pandas' defaults (line 42) and the mean fill of the numeric columns
    (lines 47-48). Both are stated here as functions on values; the
    in-place versions are in module Frames. */
module Cleaning {
  import opened Outcomes
  import opened Tables

  // ---------------------------------------------------------------------
  // Duplicate rows
  // ---------------------------------------------------------------------

  /** The first occurrence of each distinct element, in the original order
      (`keep="first"`). Whole rows are compared, and since a missing cell is
      the one value `Missing`, two missing cells compare equal, as pandas
      treats NaN when it looks for duplicates. */
  function Dedup<T(==, !new)>(s: seq<T>): (r: seq<T>)
    ensures |r| <= |s|
    ensures forall x :: x in r <==> x in s
    ensures NoRepeats(r)
    decreases |s|
  {
    if s == [] then []
    else
      var init, last := s[..|s| - 1], s[|s| - 1];
      assert s == init + [last];
      if last in init then Dedup(init) else Dedup(init) + [last]
  }

  /** A sequence without repeats is left as it is. */
  lemma {:induction false} DedupOfDistinct<T(!new)>(s: seq<T>)
    requires NoRepeats(s)
    ensures Dedup(s) == s
    decreases |s|
  {
    if s != [] {
      var init := s[..|s| - 1];
      assert s[|s| - 1] !in init;
      DedupOfDistinct(init);
      assert s == init + [s[|s| - 1]];
    }
  }

  /** Removing duplicates twice is removing them once. */
  lemma DedupIdempotent<T(!new)>(s: seq<T>)
    ensures Dedup(Dedup(s)) == Dedup(s)
  {
    DedupOfDistinct(Dedup(s));
  }

  /** The index of the first occurrence of `x` in `s`. */
  function FirstIndex<T(==)>(s: seq<T>, x: T): (k: nat)
    requires x in s
    ensures k < |s| && s[k] == x && x !in s[..k]
  {
    if s[0] == x then 0
    else
      assert s == [s[0]] + s[1..];
      var k := FirstIndex(s[1..], x);
      assert s[..k + 1] == [s[0]] + s[1..][..k];
      k + 1
  }

  lemma FirstIndexUnique<T>(s: seq<T>, x: T, k: nat)
    requires k < |s| && s[k] == x && x !in s[..k]
    ensures FirstIndex(s, x) == k
  {
  }

  /** Appending after the first occurrence does not move it. */
  lemma FirstIndexPrefix<T>(a: seq<T>, b: seq<T>, x: T)
    requires x in a
    ensures FirstIndex(a + b, x) == FirstIndex(a, x)
  {
    var k := FirstIndex(a, x);
    assert (a + b)[..k] == a[..k];
    FirstIndexUnique(a + b, x, k);
  }

  /** The rows that survive keep the order of their first occurrences: the
      result is the list of distinct rows sorted by where each first appears.
      Together with the contract of Dedup (same elements, no repeats) this
      determines the result completely. */
  lemma {:induction false} DedupKeepsFirstOccurrenceOrder<T(!new)>(s: seq<T>, i: nat, j: nat)
    requires i < j < |Dedup(s)|
    ensures FirstIndex(s, Dedup(s)[i]) < FirstIndex(s, Dedup(s)[j])
    decreases |s|
  {
    var init, last := s[..|s| - 1], s[|s| - 1];
    assert s == init + [last];
    var d := Dedup(init);
    assert d[i] in init;
    FirstIndexPrefix(init, [last], d[i]);
    if j < |d| {
      assert Dedup(s)[i] == d[i] && Dedup(s)[j] == d[j];
      DedupKeepsFirstOccurrenceOrder(init, i, j);
      FirstIndexPrefix(init, [last], d[j]);
    } else {
      assert Dedup(s) == d + [last] && Dedup(s)[j] == last;
      assert s[..|init|] == init;
      FirstIndexUnique(s, last, |init|);
    }
  }

  /** `df.drop_duplicates(inplace=True)` on the value of the table: the
      columns stay, the rows become the distinct rows in first-occurrence
      order. */
  function DropDuplicates(t: Table): (r: Table)
    ensures r.columns == t.columns
    ensures |r.rows| <= |t.rows|
    ensures forall row :: row in r.rows <==> row in t.rows
    ensures NoRepeats(r.rows)
    ensures Valid(t) ==> Valid(r)
  {
    var rows := Dedup(t.rows);
    assert Valid(t) ==> Valid(Table(t.columns, rows)) by {
      if Valid(t) {
        forall k | 0 <= k < |rows| ensures Fits(t.columns, rows[k]) {
          assert rows[k] in t.rows;
          var i :| 0 <= i < |t.rows| && t.rows[i] == rows[k];
        }
      }
    }
    Table(t.columns, rows)
  }

  lemma DropDuplicatesIdempotent(t: Table)
    ensures DropDuplicates(DropDuplicates(t)) == DropDuplicates(t)
  {
    DedupIdempotent(t.rows);
  }

  // ---------------------------------------------------------------------
  // Mean fill of numeric columns
  // ---------------------------------------------------------------------

  /** Column `j` of the table, top to bottom. */
  function ColumnCells(t: Table, j: nat): (c: seq<Cell>)
    requires Valid(t) && j < |t.columns|
    ensures |c| == |t.rows|
    ensures forall i :: 0 <= i < |t.rows| ==> c[i] == t.rows[i][j]
  {
    seq(|t.rows|, i requires 0 <= i < |t.rows| => t.rows[i][j])
  }

  /** The numbers among the cells, in order: what `mean()` averages once it
      has skipped the missing cells. */
  function Numbers(cells: seq<Cell>): (vs: seq<real>)
    ensures |vs| <= |cells|
    decreases |cells|
  {
    if cells == [] then []
    else (if cells[0].Num? then [cells[0].value] else []) + Numbers(cells[1..])
  }

  function Sum(xs: seq<real>): real
    decreases |xs|
  {
    if xs == [] then 0.0 else xs[0] + Sum(xs[1..])
  }

  function Average(xs: seq<real>): real
    requires xs != []
  {
    Sum(xs) / (|xs| as real)
  }

  /** `Series.mean()` with `skipna=True`: undefined (NaN in pandas) when the
      column holds no number at all. */
  function Mean(cells: seq<Cell>): (r: Option<real>)
    ensures r.Some? <==> Numbers(cells) != []
    ensures r.Some? ==> r.value * (|Numbers(cells)| as real) == Sum(Numbers(cells))
  {
    var vs := Numbers(cells);
    if vs == [] then None
    else
      DivisionUndone(Sum(vs), |vs| as real);
      Some(Average(vs))
  }

  /** `fillna` of one cell with the column's mean; filling with an
      undefined mean (NaN) leaves the cell missing. */
  function FillCell(c: Cell, m: Option<real>): Cell {
    if c.Missing? && m.Some? then Num(m.value) else c
  }

  /** The value `df[numeric_cols].mean()` holds for column `j`; non-numeric
      columns take no part in the fill. */
  function ColumnMean(t: Table, j: nat): (r: Option<real>)
    requires Valid(t) && j < |t.columns|
    ensures r.Some? <==> t.columns[j].kind == Numeric && Numbers(ColumnCells(t, j)) != []
    ensures r.Some? ==> r == Mean(ColumnCells(t, j))
  {
    if t.columns[j].kind == Numeric then Mean(ColumnCells(t, j)) else None
  }

  /** `df[numeric_cols] = df[numeric_cols].fillna(df[numeric_cols].mean())`.
      All means are taken from the table as it was before the fill. Only
      missing cells of numeric columns change, each to the mean of the
      numbers its column held; a numeric column without any number stays
      missing; everything else is left alone. */
  function FillMissingMeans(t: Table): (r: Table)
    requires Valid(t)
    ensures Valid(r)
    ensures r.columns == t.columns && |r.rows| == |t.rows|
    ensures forall i, j :: 0 <= i < |t.rows| && 0 <= j < |t.columns| && !t.rows[i][j].Missing? ==>
      r.rows[i][j] == t.rows[i][j]
    ensures forall i, j :: 0 <= i < |t.rows| && 0 <= j < |t.columns| && t.columns[j].kind == NonNumeric ==>
      r.rows[i][j] == t.rows[i][j]
    ensures forall i, j ::
      (0 <= i < |t.rows| && 0 <= j < |t.columns| && t.rows[i][j].Missing? &&
       t.columns[j].kind == Numeric && Numbers(ColumnCells(t, j)) != []) ==>
      r.rows[i][j] == Num(Average(Numbers(ColumnCells(t, j))))
    ensures forall i, j ::
      (0 <= i < |t.rows| && 0 <= j < |t.columns| &&
       t.columns[j].kind == Numeric && Numbers(ColumnCells(t, j)) == []) ==>
      r.rows[i][j] == t.rows[i][j]
  {
    var means := seq(|t.columns|, j requires 0 <= j < |t.columns| => ColumnMean(t, j));
    var rows := seq(|t.rows|, i requires 0 <= i < |t.rows| =>
      seq(|t.columns|, j requires 0 <= j < |t.columns| => FillCell(t.rows[i][j], means[j])));
    Table(t.columns, rows)
  }

  /** The filled column is the original column with every missing cell
      replaced by the column mean. */
  lemma FilledColumn(t: Table, j: nat)
    requires Valid(t) && j < |t.columns|
    ensures ColumnCells(FillMissingMeans(t), j) == FillAll(ColumnCells(t, j), ColumnMean(t, j))
  {
  }

  function FillAll(cells: seq<Cell>, m: Option<real>): (r: seq<Cell>)
    ensures |r| == |cells|
    ensures forall i :: 0 <= i < |cells| ==> r[i] == FillCell(cells[i], m)
  {
    seq(|cells|, i requires 0 <= i < |cells| => FillCell(cells[i], m))
  }

  function MissingCount(cells: seq<Cell>): nat
    decreases |cells|
  {
    if cells == [] then 0 else (if cells[0].Missing? then 1 else 0) + MissingCount(cells[1..])
  }

  /** Filling a column of numbers and missing cells with `m` adds one `m`
      per missing cell to its numbers. */
  lemma {:induction false} NumbersOfFilled(cells: seq<Cell>, m: real)
    requires forall i :: 0 <= i < |cells| ==> !cells[i].Text?
    ensures |Numbers(FillAll(cells, Some(m)))| == |Numbers(cells)| + MissingCount(cells)
    ensures Sum(Numbers(FillAll(cells, Some(m)))) == Sum(Numbers(cells)) + Times(MissingCount(cells), m)
    decreases |cells|
  {
    if cells != [] {
      var rest := cells[1..];
      assert FillAll(cells, Some(m))[1..] == FillAll(rest, Some(m));
      NumbersOfFilled(rest, m);
      if cells[0].Missing? {
        FilledMissingHead(cells, m);
      } else {
        FilledNumberHead(cells, m);
      }
    }
  }

  /** A missing first cell adds one `m` to the filled numbers. */
  lemma FilledMissingHead(cells: seq<Cell>, m: real)
    requires cells != [] && cells[0].Missing?
    ensures Numbers(cells) == Numbers(cells[1..])
    ensures Numbers(FillAll(cells, Some(m))) == [m] + Numbers(FillAll(cells[1..], Some(m)))
    ensures Sum(Numbers(FillAll(cells, Some(m)))) == m + Sum(Numbers(FillAll(cells[1..], Some(m))))
    ensures MissingCount(cells) == MissingCount(cells[1..]) + 1
  {
    var f := FillAll(cells, Some(m));
    assert f[1..] == FillAll(cells[1..], Some(m));
    assert Numbers(cells) == Numbers(cells[1..]) by { assert [] + Numbers(cells[1..]) == Numbers(cells[1..]); }
    var ws := Numbers(FillAll(cells[1..], Some(m)));
    SumCons([m], ws);
    assert Sum([m]) == m by { assert [m][1..] == []; }
  }

  /** A number in first position is kept by the fill. */
  lemma FilledNumberHead(cells: seq<Cell>, m: real)
    requires cells != [] && cells[0].Num?
    ensures Sum(Numbers(cells)) == cells[0].value + Sum(Numbers(cells[1..]))
    ensures Numbers(FillAll(cells, Some(m))) == [cells[0].value] + Numbers(FillAll(cells[1..], Some(m)))
    ensures Sum(Numbers(FillAll(cells, Some(m)))) == cells[0].value + Sum(Numbers(FillAll(cells[1..], Some(m))))
    ensures MissingCount(cells) == MissingCount(cells[1..])
  {
    var f := FillAll(cells, Some(m));
    assert f[1..] == FillAll(cells[1..], Some(m));
    var h := [cells[0].value];
    var vs, ws := Numbers(cells[1..]), Numbers(FillAll(cells[1..], Some(m)));
    assert Numbers(cells) == h + vs;
    assert Numbers(f) == h + ws;
    SumCons(h, vs);
    SumCons(h, ws);
    assert Sum(h) == cells[0].value by { assert h[1..] == []; }
  }


  /** `m` added up `k` times. */
  function Times(k: nat, m: real): real {
    if k == 0 then 0.0 else Times(k - 1, m) + m
  }

  lemma {:induction false} TimesIsProduct(k: nat, m: real)
    ensures Times(k, m) == m * (k as real)
  {
    if k > 0 {
      TimesIsProduct(k - 1, m);
      Distribute(m, (k - 1) as real, 1.0);
    }
  }

  lemma SumCons(head: seq<real>, rest: seq<real>)
    requires |head| <= 1
    ensures Sum(head + rest) == Sum(head) + Sum(rest)
  {
    if |head| == 1 {
      assert (head + rest)[1..] == rest;
      assert head[1..] == [];
    } else {
      assert head + rest == rest;
    }
  }

  /** Filling with the mean does not change the mean: the mean of every
      column after the fill is the one it had before. */
  lemma FillMissingMeansKeepsMeans(t: Table, j: nat)
    requires Valid(t) && j < |t.columns|
    ensures ColumnMean(FillMissingMeans(t), j) == ColumnMean(t, j)
  {
    var r := FillMissingMeans(t);
    var cells := ColumnCells(t, j);
    FilledColumn(t, j);
    if t.columns[j].kind == Numeric && Numbers(cells) != [] {
      var vs := Numbers(cells);
      var m := Average(vs);
      NumbersOfFilled(cells, m);
      PaddedAverage(vs, Numbers(FillAll(cells, Some(m))), MissingCount(cells));
    } else if t.columns[j].kind == Numeric {
      assert FillAll(cells, None) == cells;
    }
  }

  /** Adding `k` copies of the average to a list of numbers keeps its
      average. */
  lemma PaddedAverage(vs: seq<real>, ws: seq<real>, k: nat)
    requires vs != []
    requires |ws| == |vs| + k && Sum(ws) == Sum(vs) + Times(k, Average(vs))
    ensures ws != [] && Average(ws) == Average(vs)
  {
    var s, n, kr := Sum(vs), |vs| as real, k as real;
    assert Sum(ws) == s + (s / n) * kr by {
      TimesIsProduct(k, Average(vs));
    }
    MeanAlgebra(s, n, kr, Sum(ws), |ws| as real);
  }

  /** `(s + (s / n) * k) / (n + k) == s / n`. */
  lemma MeanAlgebra(s: real, n: real, k: real, t: real, d: real)
    requires n > 0.0 && k >= 0.0 && d == n + k
    requires t == s + (s / n) * k
    ensures t / d == s / n
  {
    var m := s / n;
    DivisionUndone(s, n);
    Distribute(m, n, k);
    QuotientOfMultiple(t, d, m);
  }

  lemma DivisionUndone(s: real, n: real)
    requires n > 0.0
    ensures s == (s / n) * n
  {
  }

  lemma Distribute(m: real, a: real, b: real)
    ensures m * (a + b) == m * a + m * b
  {
  }

  lemma QuotientOfMultiple(x: real, d: real, m: real)
    requires d > 0.0 && x == m * d
    ensures x / d == m
  {
  }

  /** After the fill, a numeric column that held at least one number has
      no missing cell left. */
  lemma {:induction false} FillMissingMeansCompletes(t: Table, i: nat, j: nat)
    requires Valid(t) && i < |t.rows| && j < |t.columns|
    requires t.columns[j].kind == Numeric && Numbers(ColumnCells(t, j)) != []
    ensures !FillMissingMeans(t).rows[i][j].Missing?
  {
  }

  /** A second fill changes nothing: columns that had a number have no
      missing cell left, and columns that had none are unchanged, so their
      mean is still undefined. */
  lemma {:induction false} FillMissingMeansIdempotent(t: Table)
    requires Valid(t)
    ensures FillMissingMeans(FillMissingMeans(t)) == FillMissingMeans(t)
  {
    var r := FillMissingMeans(t);
    var rr := FillMissingMeans(r);
    forall i, j | 0 <= i < |t.rows| && 0 <= j < |t.columns|
      ensures rr.rows[i][j] == r.rows[i][j]
    {
      FillMissingMeansKeepsMeans(t, j);
    }
    assert forall i :: 0 <= i < |t.rows| ==> rr.rows[i] == r.rows[i];
  }

  /** The filled-in mean lies between the smallest and the largest number
      of its column. */
  lemma {:induction false} AverageWithin(xs: seq<real>, lo: real, hi: real)
    requires xs != []
    requires forall i :: 0 <= i < |xs| ==> lo <= xs[i] <= hi
    ensures lo <= Average(xs) <= hi
  {
    SumWithin(xs, lo, hi);
    var n := |xs| as real;
    assert n * lo <= Sum(xs) <= n * hi;
  }

  lemma {:induction false} SumWithin(xs: seq<real>, lo: real, hi: real)
    requires forall i :: 0 <= i < |xs| ==> lo <= xs[i] <= hi
    ensures (|xs| as real) * lo <= Sum(xs) <= (|xs| as real) * hi
    decreases |xs|
  {
    if xs != [] {
      SumWithin(xs[1..], lo, hi);
      var n := |xs[1..]| as real;
      assert (n + 1.0) * lo == n * lo + lo;
      assert (n + 1.0) * hi == n * hi + hi;
    }
  }
}
