/** Column selection, `df = df[columns]` (app.py lines 53-54): the table
    keeps exactly the chosen columns, in the chosen order. */
module Projection {
  import opened Outcomes
  import opened Tables

  /** The position of the first column called `name`, or -1 if there is
      none. */
  function IndexOf(cols: seq<Column>, name: string): (k: int)
    ensures -1 <= k < |cols|
    ensures k >= 0 ==> cols[k].name == name
    ensures forall j :: 0 <= j < k ==> cols[j].name != name
    ensures k == -1 <==> forall j :: 0 <= j < |cols| ==> cols[j].name != name
    decreases |cols|
  {
    if cols == [] then -1
    else if cols[0].name == name then 0
    else
      var k := IndexOf(cols[1..], name);
      if k == -1 then -1 else k + 1
  }

  /** With distinct names, the column at position `j` is found at `j`. */
  lemma IndexOfDistinct(cols: seq<Column>, j: nat)
    requires DistinctNames(cols) && j < |cols|
    ensures IndexOf(cols, cols[j].name) == j
  {
    var k := IndexOf(cols, cols[j].name);
    assert k != -1;
    assert !(k < j) && !(j < k);
  }

  /** The requested names that are not columns of the table, in request
      order, each as often as it is requested. The multiselect never
      requests a name twice, so this is the set of names the KeyError is
      about. */
  function Unknown(cols: seq<Column>, names: seq<string>): (r: seq<string>)
    ensures forall x :: x in r <==> x in names && IndexOf(cols, x) == -1
    ensures |r| <= |names|
    decreases |names|
  {
    if names == [] then []
    else (if IndexOf(cols, names[0]) == -1 then [names[0]] else []) + Unknown(cols, names[1..])
  }

  /** The unknown names come in request order: those of `a + b` are those
      of `a` followed by those of `b`. */
  lemma {:induction false} UnknownAppend(cols: seq<Column>, a: seq<string>, b: seq<string>)
    ensures Unknown(cols, a + b) == Unknown(cols, a) + Unknown(cols, b)
    decreases |a|
  {
    if a == [] {
      assert a + b == b;
    } else {
      assert (a + b)[0] == a[0] && (a + b)[1..] == a[1..] + b;
      UnknownAppend(cols, a[1..], b);
    }
  }

  /** The table made of the columns at the given positions. */
  function Pick(t: Table, idx: seq<int>): (r: Table)
    requires Valid(t) && forall k :: 0 <= k < |idx| ==> 0 <= idx[k] < |t.columns|
    ensures |r.columns| == |idx| && |r.rows| == |t.rows|
    ensures forall k :: 0 <= k < |idx| ==> r.columns[k] == t.columns[idx[k]]
    ensures forall i :: 0 <= i < |t.rows| ==> |r.rows[i]| == |idx| && Fits(r.columns, r.rows[i])
    ensures forall i, k :: 0 <= i < |t.rows| && 0 <= k < |idx| ==> r.rows[i][k] == t.rows[i][idx[k]]
  {
    var cols := seq(|idx|, k requires 0 <= k < |idx| => t.columns[idx[k]]);
    var rows := seq(|t.rows|, i requires 0 <= i < |t.rows| =>
      seq(|idx|, k requires 0 <= k < |idx| => t.rows[i][idx[k]]));
    Table(cols, rows)
  }

  /** `df[names]`: fails, listing the unknown names, if any requested name
      is not a column; otherwise the table made of the requested columns in
      the requested order, with every row kept in place. */
  function Select(t: Table, names: seq<string>): (r: Result<Table, seq<string>>)
    requires Valid(t)
    ensures r.Err? <==> exists k :: 0 <= k < |names| && IndexOf(t.columns, names[k]) == -1
    ensures r.Err? ==> r.error == Unknown(t.columns, names) && r.error != []
    ensures r.Ok? ==> Names(r.value.columns) == names && |r.value.rows| == |t.rows|
    ensures r.Ok? ==> forall k :: 0 <= k < |names| ==>
      r.value.columns[k] == t.columns[IndexOf(t.columns, names[k])]
    ensures r.Ok? ==> forall i :: 0 <= i < |t.rows| ==>
      |r.value.rows[i]| == |names| && Fits(r.value.columns, r.value.rows[i])
    ensures r.Ok? ==> forall i, k :: 0 <= i < |t.rows| && 0 <= k < |names| ==>
      r.value.rows[i][k] == t.rows[i][IndexOf(t.columns, names[k])]
    ensures r.Ok? && NoRepeats(names) ==> Valid(r.value)
  {
    var missing := Unknown(t.columns, names);
    if missing != [] then
      assert missing[0] in names;
      Err(missing)
    else
      assert forall k :: 0 <= k < |names| ==> IndexOf(t.columns, names[k]) >= 0 by {
        forall k | 0 <= k < |names| ensures IndexOf(t.columns, names[k]) >= 0 {
          assert names[k] !in missing;
        }
      }
      var idx := seq(|names|, k requires 0 <= k < |names| => IndexOf(t.columns, names[k]));
      var p := Pick(t, idx);
      assert Names(p.columns) == names;
      Ok(p)
  }

  /** The default selection, every column in table order, gives back the
      table unchanged. */
  lemma {:induction false} SelectAllColumns(t: Table)
    requires Valid(t)
    ensures Select(t, Names(t.columns)) == Ok(t)
  {
    var names := Names(t.columns);
    forall j | 0 <= j < |t.columns| ensures IndexOf(t.columns, names[j]) == j {
      IndexOfDistinct(t.columns, j);
    }
    var r := Select(t, names);
    assert r.Ok?;
    assert r.value.columns == t.columns;
    forall i | 0 <= i < |t.rows| ensures r.value.rows[i] == t.rows[i] {
      assert |t.rows[i]| == |t.columns|;
    }
    assert r.value.rows == t.rows;
  }
}
