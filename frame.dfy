/**
 * The tabular batch every ETL step hands on (a pandas DataFrame): a set of
 * column names and a sequence of rows, each row a map from column name to
 * cell.
 */
module Frame {
  import opened Wrappers
  import opened Strings

  /**
   * A value that is not missing. Dates and times are produced by parsers the
   * cleaners take as parameters, so they need no constructor of their own.
   */
  datatype Value = Text(s: string) | Int(n: int)

  /** A cell; None is pandas' missing value (None, NaN, NaT, NA). */
  type Cell = Option<Value>

  type Row = map<string, Cell>

  datatype Table = Table(columns: set<string>, rows: seq<Row>)

  /** Every row holds exactly the table's columns, as in a DataFrame. */
  ghost predicate WellFormed(t: Table) {
    forall i :: 0 <= i < |t.rows| ==> t.rows[i].Keys == t.columns
  }

  /** `df.empty`: no rows, or no columns. */
  predicate Empty(t: Table) {
    |t.rows| == 0 || t.columns == {}
  }

  /** The cell of column `c`, read as missing when the row lacks it. */
  function Get(r: Row, c: string): Cell {
    if c in r then r[c] else None
  }

  /** `str(v)`. */
  function Show(v: Value): string {
    match v
    case Text(s) => s
    case Int(n) => IntToString(n)
  }

  /**
   * A cell as the enrichment rules see it: missing stays missing, anything
   * else is read through `str(...)`. Only a text cell can read as "".
   */
  function CellText(c: Cell): (r: Option<string>)
    ensures r.None? <==> c.None?
    ensures r == Some("") <==> c == Some(Text(""))
  {
    match c
    case None => None
    case Some(v) => Some(Show(v))
  }
}
