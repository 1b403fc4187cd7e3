/**
 * `load_data`: turn the rows the CSV reader produced into the canonical
 * table, or into the blank table when the source cannot be read, has no
 * rows, or lacks one of the columns the map needs.
 */
module Loader {
  import opened Wrappers
  import opened Selection
  import opened Frames

  /** One row as `csv.DictReader` yields it: header label to cell text, with
      `None` where the line was too short to fill a column. */
  type RawRow = map<string, Option<string>>

  /** The errors `load_data` reports with `st.error` before returning the blank table. */
  datatype LoadError =
    | Unreadable      // the file could not be opened or tokenised
    | EmptyDataset    // "The dataset is empty."
    | MissingColumns  // "The dataset is missing required columns for mapping."

  /** The columns that must be present, in the order the source checks them. */
  const RequiredColumns: seq<string> := [LongitudeColumn, LatitudeColumn, ElevationColumn]

  /** The columns converted to numbers, in the order the source converts them. */
  const NumericColumns: seq<string> := [LatitudeColumn, LongitudeColumn, ElevationColumn]

  /** The columns of `pd.DataFrame(rows)`: every key of any row. */
  function Columns(rows: seq<RawRow>): (cols: set<string>)
    ensures forall i, c :: 0 <= i < |rows| && c in rows[i] ==> c in cols
    ensures forall c :: c in cols ==> exists i :: 0 <= i < |rows| && c in rows[i]
  {
    if rows == [] then {}
    else
      var rest := Columns(rows[1..]);
      assert forall i, c :: 1 <= i < |rows| && c in rows[i] ==> c in rows[1..][i - 1];
      rows[0].Keys + rest
  }

  /** The cell `pd.DataFrame(rows)` holds for column `c` of a raw row. */
  function RawCell(raw: RawRow, c: string): Cell
  {
    if c in raw && raw[c].Some? then Text(raw[c].value) else Missing
  }

  /** `pd.DataFrame(rows)`: one row per raw row, a cell for every column,
      missing where the raw row has no text for it. */
  function ToFrame(rows: seq<RawRow>): (f: Frame)
    ensures WellShaped(f)
    ensures f.columns == Columns(rows) && |f.rows| == |rows|
  {
    var cols := Columns(rows);
    Frame(cols, seq(|rows|, i requires 0 <= i < |rows| => map c | c in cols :: RawCell(rows[i], c)))
  }

  /** `pd.to_numeric(..., errors='coerce')` on one cell: text that parses becomes
      a number, anything else becomes missing. */
  function Coerce(cell: Cell, parse: string -> Option<real>): (r: Cell)
    ensures r.Num? || r.Missing?
    ensures r.Num? <==> (cell.Num? || (cell.Text? && parse(cell.text).Some?))
  {
    match cell
    case Text(s) => if parse(s).Some? then Num(parse(s).value) else Missing
    case Num(_) => cell
    case Missing => Missing
  }

  /** Coercing twice is coercing once. */
  lemma CoerceIdempotent(cell: Cell, parse: string -> Option<real>)
    ensures Coerce(Coerce(cell, parse), parse) == Coerce(cell, parse)
  {
  }

  /** `data[col] = pd.to_numeric(data[col], errors='coerce')`. */
  function CoerceColumn(f: Frame, col: string, parse: string -> Option<real>): (g: Frame)
    ensures g.columns == f.columns && |g.rows| == |f.rows|
  {
    Frame(f.columns, seq(|f.rows|, i requires 0 <= i < |f.rows| =>
      if col in f.rows[i] then f.rows[i][col := Coerce(f.rows[i][col], parse)] else f.rows[i]))
  }

  /** Coercing the columns `cols` one after the other. */
  function CoerceColumns(f: Frame, cols: seq<string>, parse: string -> Option<real>): (g: Frame)
    ensures g.columns == f.columns && |g.rows| == |f.rows|
  {
    if cols == [] then f
    else CoerceColumn(CoerceColumns(f, cols[..|cols| - 1], parse), cols[|cols| - 1], parse)
  }

  /** After coercing `cols`, each cell of a well-shaped frame is coerced exactly when
      its column is one of `cols`, and no row gains or loses a column. */
  lemma {:induction false} CoerceColumnsCells(f: Frame, cols: seq<string>, parse: string -> Option<real>)
    requires WellShaped(f)
    ensures WellShaped(CoerceColumns(f, cols, parse))
    ensures forall i, c :: 0 <= i < |f.rows| && c in f.columns ==>
              CoerceColumns(f, cols, parse).rows[i][c]
              == if c in cols then Coerce(f.rows[i][c], parse) else f.rows[i][c]
  {
    if cols != [] {
      var init, last := cols[..|cols| - 1], cols[|cols| - 1];
      CoerceColumnsCells(f, init, parse);
      var g := CoerceColumns(f, init, parse);
      assert forall i :: 0 <= i < |g.rows| ==> g.rows[i] in g.rows;
      forall i, c | 0 <= i < |f.rows| && c in f.columns
        ensures CoerceColumns(f, cols, parse).rows[i][c]
                == if c in cols then Coerce(f.rows[i][c], parse) else f.rows[i][c]
      {
        assert f.rows[i] in f.rows;
        CoerceIdempotent(f.rows[i][c], parse);
        assert c in cols <==> c in init || c == last;
      }
      var h := CoerceColumns(f, cols, parse);
      forall r | r in h.rows ensures r.Keys == h.columns {
        var i :| 0 <= i < |h.rows| && h.rows[i] == r;
      }
    }
  }

  /** `data.dropna()`: keep the rows with no missing cell, in order. */
  function DropNa(f: Frame): (g: Frame)
    ensures g.columns == f.columns
    ensures forall r :: r in g.rows ==> Complete(r)
  {
    Where(f, Complete)
  }

  /** The required-column check of `load_data`. */
  predicate HasRequiredColumns(f: Frame): (present: bool)
    ensures present <==>
              LongitudeColumn in f.columns && LatitudeColumn in f.columns && ElevationColumn in f.columns
  {
    forall c :: c in RequiredColumns ==> c in f.columns
  }

  /** What `load_data` computes, as a value: the reported error, or the loaded table. */
  function Load(source: Option<seq<RawRow>>, parse: string -> Option<real>): (r: Result<Frame, LoadError>)
    ensures source == None ==> r == Failure(Unreadable)
    ensures source == Some([]) ==> r == Failure(EmptyDataset)
    ensures source.Some? && source.value != [] ==>
              (r == Failure(MissingColumns) <==> !HasRequiredColumns(ToFrame(source.value)))
    ensures r.Success? <==> source.Some? && source.value != [] && HasRequiredColumns(ToFrame(source.value))
    ensures r.Success? ==> source.Some? && r.value.columns == Columns(source.value)
    ensures r.Success? ==> |r.value.rows| <= |source.value|
  {
    match source
    case None => Failure(Unreadable)
    case Some(rows) =>
      if |rows| == 0 then Failure(EmptyDataset)
      else
        var data := ToFrame(rows);
        if !HasRequiredColumns(data) then Failure(MissingColumns)
        else Success(DropNa(CoerceColumns(data, NumericColumns, parse)))
  }

  /** A raw row survives loading: every column has text in it, and the text of
      each numeric column parses. */
  function Survives(cols: set<string>, parse: string -> Option<real>): RawRow -> bool
  {
    (raw: RawRow) => forall c :: c in cols ==>
      c in raw && raw[c].Some? && (IsNumericColumn(c) ==> parse(raw[c].value).Some?)
  }

  /** The loaded row `row` is the raw row `raw` with its numeric columns parsed
      and its other columns kept as text. */
  predicate ParsedFrom(row: Row, raw: RawRow, parse: string -> Option<real>)
  {
    forall c :: c in row ==>
      && c in raw && raw[c].Some?
      && if IsNumericColumn(c)
         then parse(raw[c].value).Some? && row[c] == Num(parse(raw[c].value).value)
         else row[c] == Text(raw[c].value)
  }

  lemma NumericColumnsAre(c: string)
    ensures c in NumericColumns <==> IsNumericColumn(c)
  {
  }

  lemma ToFrameCell(rows: seq<RawRow>, i: nat, c: string)
    requires i < |rows| && c in Columns(rows)
    ensures c in ToFrame(rows).rows[i] && ToFrame(rows).rows[i][c] == RawCell(rows[i], c)
  {
  }

  /** The cell of column `c` in row `i` once the numeric columns are coerced. */
  lemma CoercedCell(rows: seq<RawRow>, parse: string -> Option<real>, i: nat, c: string)
    requires i < |rows| && c in Columns(rows)
    ensures var row := CoerceColumns(ToFrame(rows), NumericColumns, parse).rows[i];
            c in row &&
            row[c] == if IsNumericColumn(c) then Coerce(RawCell(rows[i], c), parse) else RawCell(rows[i], c)
  {
    var frame := ToFrame(rows);
    CoerceColumnsCells(frame, NumericColumns, parse);
    var f := CoerceColumns(frame, NumericColumns, parse);
    assert f.rows[i] in f.rows;
    NumericColumnsAre(c);
    ToFrameCell(rows, i, c);
  }

  lemma CoercedKeys(rows: seq<RawRow>, parse: string -> Option<real>, i: nat)
    requires i < |rows|
    ensures CoerceColumns(ToFrame(rows), NumericColumns, parse).rows[i].Keys == Columns(rows)
  {
    var frame := ToFrame(rows);
    CoerceColumnsCells(frame, NumericColumns, parse);
    var f := CoerceColumns(frame, NumericColumns, parse);
    assert f.rows[i] in f.rows;
  }

  /** One converted cell is present exactly when its raw text exists and, in a numeric
      column, parses; it then holds the parsed number or the text. */
  lemma CoercedCellPresent(rows: seq<RawRow>, parse: string -> Option<real>, i: nat, c: string)
    requires i < |rows| && c in Columns(rows)
    ensures var row, raw := CoerceColumns(ToFrame(rows), NumericColumns, parse).rows[i], rows[i];
            && c in row
            && (row[c] != Missing <==>
                  c in raw && raw[c].Some? && (IsNumericColumn(c) ==> parse(raw[c].value).Some?))
            && (row[c] != Missing ==>
                  && c in raw && raw[c].Some?
                  && if IsNumericColumn(c)
                     then parse(raw[c].value).Some? && row[c] == Num(parse(raw[c].value).value)
                     else row[c] == Text(raw[c].value))
  {
    CoercedCell(rows, parse, i, c);
  }

  lemma CoercedRowComplete(rows: seq<RawRow>, parse: string -> Option<real>, i: nat)
    requires i < |rows|
    ensures var f := CoerceColumns(ToFrame(rows), NumericColumns, parse);
            && f.rows[i].Keys == Columns(rows)
            && (Complete(f.rows[i]) <==> Survives(Columns(rows), parse)(rows[i]))
            && (Complete(f.rows[i]) ==> ParsedFrom(f.rows[i], rows[i], parse))
  {
    CoercedKeys(rows, parse, i);
    forall c | c in Columns(rows) {
      CoercedCellPresent(rows, parse, i, c);
    }
  }

  /**
   * The rows that survive loading are exactly the raw rows in which every
   * column has text and the three numeric columns parse; they come out in
   * their original order, numeric cells parsed and the others kept as text.
   * A row with any missing or unparseable cell is dropped whole.
   */
  lemma LoadKeepsParsedRows(rows: seq<RawRow>, parse: string -> Option<real>)
    requires Load(Some(rows), parse).Success?
    ensures var f := Load(Some(rows), parse).value;
            var idx := KeptIndices(rows, Survives(Columns(rows), parse));
            && f.columns == Columns(rows)
            && |f.rows| == |idx|
            && forall k :: 0 <= k < |idx| ==>
                 f.rows[k].Keys == f.columns && ParsedFrom(f.rows[k], rows[idx[k]], parse)
  {
    var coerced := CoerceColumns(ToFrame(rows), NumericColumns, parse);
    assert Load(Some(rows), parse).value == Frame(Columns(rows), Select(coerced.rows, Complete));
    var survives := Survives(Columns(rows), parse);
    forall i | 0 <= i < |rows| ensures Complete(coerced.rows[i]) == survives(rows[i]) {
      CoercedRowComplete(rows, parse, i);
    }
    KeptFromAgree(coerced.rows, Complete, rows, survives, 0);
    SelectKeepsOrder(coerced.rows, Complete);
    var idx := KeptIndices(rows, survives);
    forall k | 0 <= k < |idx|
      ensures coerced.rows[idx[k]].Keys == Columns(rows)
      ensures ParsedFrom(coerced.rows[idx[k]], rows[idx[k]], parse)
    {
      CoercedRowComplete(rows, parse, idx[k]);
    }
  }

  /** A successful load yields a canonical table. */
  lemma LoadIsCanonical(rows: seq<RawRow>, parse: string -> Option<real>)
    requires Load(Some(rows), parse).Success?
    ensures Canonical(Load(Some(rows), parse).value)
  {
    var f := Load(Some(rows), parse).value;
    LoadKeepsParsedRows(rows, parse);
    var idx := KeptIndices(rows, Survives(Columns(rows), parse));
    forall r | r in f.rows
      ensures r.Keys == f.columns
      ensures forall c :: c in r ==> if IsNumericColumn(c) then r[c].Num? else r[c].Text?
    {
      var k :| 0 <= k < |f.rows| && f.rows[k] == r;
      assert ParsedFrom(r, rows[idx[k]], parse);
    }
    assert HasRequiredColumns(ToFrame(rows));
    assert forall c :: c in RequiredColumns ==> c in f.columns;
  }

  /** The mask of raw rows whose elevation is missing or does not parse. */
  function BadElevation(parse: string -> Option<real>): RawRow -> bool
  {
    (raw: RawRow) => !(ElevationColumn in raw && raw[ElevationColumn].Some?
             && parse(raw[ElevationColumn].value).Some?)
  }

  /** Of `n` raw rows of which `k` have a malformed elevation, at most `n - k` load. */
  lemma LoadDropsMalformed(rows: seq<RawRow>, parse: string -> Option<real>)
    requires Load(Some(rows), parse).Success?
    ensures |Load(Some(rows), parse).value.rows| + |Select(rows, BadElevation(parse))| <= |rows|
    ensures var idx := KeptIndices(rows, Survives(Columns(rows), parse));
            forall k :: 0 <= k < |idx| ==> !BadElevation(parse)(rows[idx[k]])
  {
    var survives := Survives(Columns(rows), parse);
    LoadKeepsParsedRows(rows, parse);
    SelectKeepsOrder(rows, survives);
    assert ElevationColumn in Columns(rows) by {
      assert HasRequiredColumns(ToFrame(rows));
      assert RequiredColumns[2] == ElevationColumn;
    }
    SelectMonotone(rows, BadElevation(parse), Not(survives));
    SelectPartition(rows, survives);
  }

  /**
   * `load_data`: returns the loaded table and no error, or reports the error
   * and returns the blank table. The numeric columns are overwritten one at a
   * time, as the source's loop does.
   */
  method LoadData(source: Option<seq<RawRow>>, parse: string -> Option<real>)
    returns (data: Frame, reported: Option<LoadError>)
    ensures Load(source, parse).Success? ==> reported == None && data == Load(source, parse).value
    ensures Load(source, parse).Failure? ==> reported == Some(Load(source, parse).error) && data == Blank
    ensures reported == None <==>
              source.Some? && source.value != [] && HasRequiredColumns(ToFrame(source.value))
    ensures reported == None ==> Canonical(data)
    ensures source == None ==> reported == Some(Unreadable)
    ensures source == Some([]) ==> reported == Some(EmptyDataset)
    ensures (source.Some? && source.value != [] && !HasRequiredColumns(ToFrame(source.value)))
            ==> reported == Some(MissingColumns)
  {
    if source == None {
      return Blank, Some(Unreadable);
    }
    var rows := source.value;
    if |rows| == 0 {
      return Blank, Some(EmptyDataset);
    }
    data := ToFrame(rows);
    if !HasRequiredColumns(data) {
      return Blank, Some(MissingColumns);
    }
    ghost var parsed := data;
    for i := 0 to |NumericColumns|
      invariant data == CoerceColumns(parsed, NumericColumns[..i], parse)
    {
      assert NumericColumns[..i + 1][..i] == NumericColumns[..i];
      data := CoerceColumn(data, NumericColumns[i], parse);
    }
    assert NumericColumns[..|NumericColumns|] == NumericColumns;
    data := DropNa(data);
    LoadIsCanonical(rows, parse);
    reported := None;
  }
}
