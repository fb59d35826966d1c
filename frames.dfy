/** The `df` object of app.py, which the two cleaning buttons change in
    place: `df.drop_duplicates(inplace=True)` (line 42) and the assignment
    `df[numeric_cols] = ...` (line 48). */
module Frames {
  import opened Tables
  import Cleaning

  class Frame {
    var columns: seq<Column>
    var rows: seq<Row>

    /** The table the frame currently holds. */
    function Value(): Table
      reads this
    {
      Table(columns, rows)
    }

    constructor (t: Table)
      ensures Value() == t
    {
      columns := t.columns;
      rows := t.rows;
    }

    /** Keeps the first occurrence of each distinct row, in order; the
        columns do not change. */
    method DropDuplicates()
      modifies this
      ensures Value() == Cleaning.DropDuplicates(old(Value()))
      ensures columns == old(columns)
      ensures Valid(old(Value())) ==> Valid(Value())
    {
      rows := Cleaning.Dedup(rows);
    }

    /** Replaces the missing cells of the numeric columns by the means
        those columns had before the call. */
    method FillMissing()
      requires Valid(Value())
      modifies this
      ensures Valid(Value())
      ensures Value() == Cleaning.FillMissingMeans(old(Value()))
      ensures columns == old(columns) && |rows| == |old(rows)|
    {
      var filled := Cleaning.FillMissingMeans(Value());
      rows := filled.rows;
    }
  }
}
