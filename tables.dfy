/** The in-memory table the script works on (a pandas DataFrame, seen
    through `select_dtypes`): an ordered list of named columns, each tagged
    numeric or not, and an ordered list of rows with one cell per column. */
module Tables {

  /** A cell is missing (NaN or None), a number, or any other value (text,
      boolean, date), which is carried as its text. */
  datatype Cell = Missing | Num(value: real) | Text(text: string)

  /** Whether `select_dtypes(include=["number"])` picks the column. */
  datatype Kind = Numeric | NonNumeric

  datatype Column = Column(name: string, kind: Kind)

  type Row = seq<Cell>

  datatype Table = Table(columns: seq<Column>, rows: seq<Row>)

  /** The column names, in table order (`df.columns`). */
  function Names(cols: seq<Column>): seq<string> {
    seq(|cols|, j requires 0 <= j < |cols| => cols[j].name)
  }

  /** No element occurs twice. */
  predicate NoRepeats<T(==)>(s: seq<T>) {
    forall i, j :: 0 <= i < j < |s| ==> s[i] != s[j]
  }

  predicate DistinctNames(cols: seq<Column>) {
    forall i, j :: 0 <= i < j < |cols| ==> cols[i].name != cols[j].name
  }

  /** A row has one cell per column, and a numeric column holds only
      numbers and missing cells. */
  predicate Fits(cols: seq<Column>, row: Row) {
    |row| == |cols| && forall j :: 0 <= j < |row| && cols[j].kind == Numeric ==> !row[j].Text?
  }

  /** What the readers guarantee of every table they build: unique column
      names and rectangular, type-consistent rows. */
  predicate Valid(t: Table) {
    DistinctNames(t.columns) && forall i :: 0 <= i < |t.rows| ==> Fits(t.columns, t.rows[i])
  }
}
