/**
 * The table the dashboard works on: a pandas DataFrame reduced to a set of
 * column labels and an ordered sequence of rows, each row a map from column
 * label to cell.
 */
module Frames {
  import opened Selection

  /** One cell: text as the CSV reader produced it, a number after
      `pd.to_numeric`, or a missing value (NaN/None). */
  datatype Cell = Text(text: string) | Num(value: real) | Missing

  type Row = map<string, Cell>

  datatype Frame = Frame(columns: set<string>, rows: seq<Row>)

  const TypeColumn: string := "type"
  const RegionColumn: string := "iso_region"
  const LatitudeColumn: string := "latitude_deg"
  const LongitudeColumn: string := "longitude_deg"
  const ElevationColumn: string := "elevation_ft"

  /** The selector value that means "do not restrict on this column". */
  const Wildcard: string := "all"

  /** `pd.DataFrame()`: no columns and no rows. */
  const Blank: Frame := Frame({}, [])

  /** The cell of column `c` in row `r`; a row without the column reads as missing. */
  function Field(r: Row, c: string): Cell
  {
    if c in r then r[c] else Missing
  }

  /** Every row has a cell for exactly the frame's columns. */
  predicate WellShaped(f: Frame)
  {
    forall r :: r in f.rows ==> r.Keys == f.columns
  }

  /** The columns that `load_data` converts with `pd.to_numeric`. */
  predicate IsNumericColumn(c: string)
  {
    c == LatitudeColumn || c == LongitudeColumn || c == ElevationColumn
  }

  /** No cell of the row is missing: the rows that `dropna()` keeps. */
  predicate Complete(r: Row)
  {
    forall c :: c in r ==> r[c] != Missing
  }

  /**
   * The shape of a table that loaded successfully: well shaped, the three
   * numeric columns present, every numeric cell a number and every other
   * cell text (so, in particular, no cell missing).
   */
  predicate Canonical(f: Frame)
  {
    && WellShaped(f)
    && LatitudeColumn in f.columns
    && LongitudeColumn in f.columns
    && ElevationColumn in f.columns
    && forall r: Row :: r in f.rows ==>
         forall c: string :: c in r ==> if IsNumericColumn(c) then r[c].Num? else r[c].Text?
  }

  /** The mask `frame[c] == t`. */
  function HasText(c: string, t: string): Row -> bool
  {
    r => Field(r, c) == Text(t)
  }

  /** A frame holding the rows of `f` that satisfy `keep`, with the same columns. */
  function Where(f: Frame, keep: Row -> bool): (g: Frame)
    ensures g.columns == f.columns
    ensures WellShaped(f) ==> WellShaped(g)
    ensures Canonical(f) ==> Canonical(g)
  {
    Frame(f.columns, Select(f.rows, keep))
  }

  /** The text values of column `c`, row by row (cells that are not text are skipped,
      as `value_counts` skips missing values). */
  function ColumnTexts(rows: seq<Row>, c: string): (ts: seq<string>)
    ensures |ts| <= |rows|
    ensures forall t :: t in ts ==> exists r :: r in rows && Field(r, c) == Text(t)
  {
    if rows == [] then []
    else
      assert forall r :: r in rows[1..] ==> r in rows;
      (if Field(rows[0], c).Text? then [Field(rows[0], c).text] else []) + ColumnTexts(rows[1..], c)
  }

  /** The number of times `t` occurs in column `c` is the number of rows the mask
      `frame[c] == t` selects. */
  lemma {:induction false} ColumnTextsCount(rows: seq<Row>, c: string, t: string)
    ensures multiset(ColumnTexts(rows, c))[t] == |Select(rows, HasText(c, t))|
  {
    if rows != [] {
      ColumnTextsCount(rows[1..], c, t);
    }
  }

  /** When every row holds text in column `c`, there is one value per row. */
  lemma {:induction false} ColumnTextsLength(rows: seq<Row>, c: string)
    requires forall r :: r in rows ==> Field(r, c).Text?
    ensures |ColumnTexts(rows, c)| == |rows|
  {
    if rows != [] {
      assert forall r :: r in rows[1..] ==> r in rows;
      ColumnTextsLength(rows[1..], c);
    }
  }

  /** Every text value of column `c` is listed. */
  lemma {:induction false} ColumnTextsHas(rows: seq<Row>, c: string)
    ensures forall r :: r in rows && Field(r, c).Text? ==> Field(r, c).text in ColumnTexts(rows, c)
  {
    if rows != [] {
      ColumnTextsHas(rows[1..], c);
      assert forall r :: r in rows ==> r == rows[0] || r in rows[1..];
    }
  }
}
