/**
 * The script's top level: load once, build the two selectors, then either
 * report an empty dataset, warn that nothing matches, or show the filtered
 * table with its derived views.
 */
module Dashboard {
  import opened Wrappers
  import opened Selection
  import opened Frames
  import opened Loader
  import opened Filtering
  import opened Views

  /** What one run of the script ends with. */
  datatype Screen =
    | KeyError(column: string)  // pandas raises on a missing column and the script stops
    | DatasetEmpty              // "The dataset is empty. Unable to display data or charts."
    | NoMatches                 // "No data available for the selected filters."
    | Shown(
        table: Frame,                          // the filtered rows
        top5: Frame,                           // the five highest airports
        barCounts: Option<seq<TypeCount>>,     // the matplotlib chart (None: its empty-table warning)
        located: Option<Frame>,                // the map's rows (None: its missing-columns error)
        chartCounts: Option<seq<TypeCount>>)   // the plotly chart, drawn from the map's rows

  /** A table `load_data` can return: the blank table or a loaded one. */
  predicate Loadable(data: Frame)
  {
    data == Blank || Canonical(data)
  }

  /** The table the script works on: the loaded table, or the blank one after an error. */
  function LoadedTable(source: Option<seq<RawRow>>, parse: string -> Option<real>): (data: Frame)
    ensures Loadable(data)
    ensures Load(source, parse).Failure? <==> data == Blank
  {
    match Load(source, parse)
    case Success(f) => LoadIsCanonical(source.value, parse); f
    case Failure(_) => Blank
  }

  /** `plot_bar_chart` and `plot_chart`: the type counts, or `None` for their
      "no data" warning on an empty table. */
  function PlotCounts(f: Frame): (counts: Option<seq<TypeCount>>)
    requires TypeColumn in f.columns
    ensures counts.None? <==> f.rows == []
    ensures counts.Some? && Canonical(f) ==> Total(counts.value) == |f.rows|
  {
    if |f.rows| == 0 then None else Some(TypeCounts(f))
  }

  /** The views shown for a non-empty loaded table and a selection. */
  function ShowFiltered(data: Frame, airportType: string, location: string): (s: Screen)
    requires Canonical(data) && TypeColumn in data.columns && RegionColumn in data.columns
    ensures s.NoMatches? || s.Shown?
    ensures s.Shown? ==> Canonical(s.table) && s.table.columns == data.columns && s.table.rows != []
    ensures s.Shown? ==> (forall r :: r in s.table.rows ==> Field(r, ElevationColumn).Num?)
                         && s.top5 == Top5(s.table) && s.barCounts == Some(TypeCounts(s.table))
  {
    var filtered := FilterData(data, airportType, location);
    if |filtered.rows| == 0 then NoMatches
    else
      var located := Located(filtered);
      // line 151 rebinds `filtered_data` to the map's rows before the plotly chart
      var mapped := if located.Some? then located.value else filtered;
      Shown(filtered, Top5(filtered), PlotCounts(filtered), located, PlotCounts(mapped))
  }

  /** The script as written: both selectors index their column before the
      emptiness check. */
  function Render(data: Frame, airportType: string, location: string): (s: Screen)
    requires Loadable(data)
    ensures s.KeyError? <==> TypeColumn !in data.columns || RegionColumn !in data.columns
    ensures TypeColumn in data.columns && RegionColumn in data.columns && data.rows == [] ==> s == DatasetEmpty
  {
    if Options(data, TypeColumn).None? then KeyError(TypeColumn)
    else if Options(data, RegionColumn).None? then KeyError(RegionColumn)
    else if |data.rows| == 0 then DatasetEmpty
    else ShowFiltered(data, airportType, location)
  }

  /** As written, every failed load ends in a KeyError instead of the
      "dataset is empty" message: the blank table has no `type` column. */
  lemma FailedLoadCrashes(source: Option<seq<RawRow>>, parse: string -> Option<real>,
                          airportType: string, location: string)
    requires Load(source, parse).Failure?
    ensures Render(LoadedTable(source, parse), airportType, location) == KeyError(TypeColumn)
  {
  }

  /** The script with the emptiness check moved before the selectors, so that the
      blank table reaches the "dataset is empty" branch. */
  function RenderChecked(data: Frame, airportType: string, location: string): (s: Screen)
    requires Loadable(data)
    ensures data.rows == [] ==> s == DatasetEmpty
    ensures data.rows != [] ==> s == Render(data, airportType, location)
  {
    if |data.rows| == 0 then DatasetEmpty
    else if Options(data, TypeColumn).None? then KeyError(TypeColumn)
    else if Options(data, RegionColumn).None? then KeyError(RegionColumn)
    else ShowFiltered(data, airportType, location)
  }

  /** The whole dashboard for one source and one selection. */
  function Run(source: Option<seq<RawRow>>, parse: string -> Option<real>,
               airportType: string, location: string): (s: Screen)
    ensures Load(source, parse).Failure? ==> s == DatasetEmpty
    ensures LoadedTable(source, parse).rows != [] ==>
              s == Render(LoadedTable(source, parse), airportType, location)
    ensures s.KeyError? ==> Load(source, parse).Success? && Load(source, parse).value.rows != []
  {
    RenderChecked(LoadedTable(source, parse), airportType, location)
  }

  /** A failed load is reported as an empty dataset, never as a crash. */
  lemma FailedLoadReportsEmpty(source: Option<seq<RawRow>>, parse: string -> Option<real>,
                               airportType: string, location: string)
    requires Load(source, parse).Failure?
    ensures Run(source, parse, airportType, location) == DatasetEmpty
  {
  }

  /**
   * On a loaded table with rows and with the `type` and `iso_region` columns,
   * the dashboard warns exactly when no row matches the selection; otherwise it
   * shows the matching rows in their original order, the map draws all of them,
   * and both charts count every shown row once.
   */
  lemma RunShowsSelection(source: Option<seq<RawRow>>, parse: string -> Option<real>,
                          airportType: string, location: string)
    requires Load(source, parse).Success?
    requires var data := Load(source, parse).value;
             data.rows != [] && TypeColumn in data.columns && RegionColumn in data.columns
    ensures var data := Load(source, parse).value;
            var s := Run(source, parse, airportType, location);
            && (s.NoMatches? || s.Shown?)
            && (s == NoMatches <==> forall r :: r in data.rows ==> !Matches(airportType, location)(r))
            && (s.Shown? ==> s.top5 == Top5(s.table) && s.barCounts == Some(TypeCounts(s.table)))
            && (s.Shown? ==>
                 && s.table.rows == Select(data.rows, Matches(airportType, location))
                 && s.located == Some(s.table)
                 && s.barCounts == s.chartCounts
                 && s.barCounts.Some?
                 && Total(s.barCounts.value) == |s.table.rows|)
  {
    var data := Load(source, parse).value;
    LoadIsCanonical(source.value, parse);
    var filtered := FilterData(data, airportType, location);
    FilterIsOneMask(data, airportType, location);
    if forall r :: r in data.rows ==> !Matches(airportType, location)(r) {
      SelectNone(data.rows, Matches(airportType, location));
    } else {
      var r :| r in data.rows && Matches(airportType, location)(r);
      assert r in filtered.rows;
      LocatedIsNoOp(filtered);
    }
  }
}
