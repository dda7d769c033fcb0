/** The small part of pandas the modelled code depends on: the cells of a
    DataFrame, a frame as columns plus rows, `astype(str)`, and
    `pd.to_numeric(..., errors="coerce")`. */
module Table {
  import opened Wrappers
  import Text

  /** One cell. `NaN` is what `read_csv` puts in an empty field; `NA` is
      `pd.NA`, which the code assigns to a column it has to add. Numbers are
      integers (see README, "Left out"). */
  datatype Cell = NaN | NA | Num(n: int) | Str(s: string)

  /** `str(cell)`, the per-cell effect of `Series.astype(str)`. */
  function AsStr(c: Cell): string {
    match c
    case NaN => "nan"
    case NA => "<NA>"
    case Num(n) => Text.ShowInt(n)
    case Str(s) => s
  }

  /** `pd.to_numeric(cell, errors="coerce")`: a number is kept, integer text
      is parsed once the whitespace around it is skipped, and other text
      becomes `NaN` (here `None`). Infinity text such as "inf" is read by
      pandas as an infinite float, which integers cannot hold; here it also
      becomes `None`. */
  function ToNumeric(c: Cell): (r: Option<int>)
    ensures c.Num? ==> r == Some(c.n)
    ensures c.NaN? || c.NA? ==> r.None?
  {
    match c
    case Num(n) => Some(n)
    case Str(s) => Text.ParseInt(Text.Strip(s))
    case _ => None
  }

  /** A DataFrame with its default 0..n-1 index: the column labels in order,
      and every row as a map from column label to cell. */
  datatype Frame<Col(==)> = Frame(columns: seq<Col>, rows: seq<map<Col, Cell>>)

  /** Every row has a cell in exactly the frame's columns. */
  predicate WellFormed<Col(==)>(df: Frame<Col>) {
    forall i :: 0 <= i < |df.rows| ==> df.rows[i].Keys == set c | c in df.columns
  }

  /** `df.empty`: no rows, or no columns. */
  predicate Empty<Col(==)>(df: Frame<Col>) {
    |df.rows| == 0 || |df.columns| == 0
  }

  /** The cell of `row` in column `c`; a column the row lacks reads as `pd.NA`. */
  function Get<Col(==)>(row: map<Col, Cell>, c: Col): Cell {
    if c in row then row[c] else NA
  }

  /** `df[c].tolist()` */
  function Column<Col(==)>(df: Frame<Col>, c: Col): (cells: seq<Cell>)
    ensures |cells| == |df.rows|
    ensures forall i :: 0 <= i < |cells| ==> cells[i] == Get(df.rows[i], c)
  {
    seq(|df.rows|, i requires 0 <= i < |df.rows| => Get(df.rows[i], c))
  }
}
