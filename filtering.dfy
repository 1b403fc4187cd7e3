/**
 * `filter_data`: narrow the table to one airport type and one region, each
 * selector able to say "all".
 */
module Filtering {
  import opened Selection
  import opened Frames

  /** The rows a selection asks for: the type matches unless it is the wildcard,
      and the region matches unless it is the wildcard. */
  function Matches(airportType: string, location: string): (m: Row -> bool)
    ensures forall r :: m(r) <==>
              && (airportType == Wildcard || HasText(TypeColumn, airportType)(r))
              && (location == Wildcard || HasText(RegionColumn, location)(r))
  {
    r => (airportType == Wildcard || Field(r, TypeColumn) == Text(airportType))
      && (location == Wildcard || Field(r, RegionColumn) == Text(location))
  }

  /**
   * `filter_data(data1, airport_type, location)`: first the type mask, then the
   * region mask, each skipped for the wildcard. Pandas raises a KeyError when
   * a column it has to compare is absent, hence the two requirements.
   */
  function FilterData(data: Frame, airportType: string, location: string): (r: Frame)
    requires airportType != Wildcard ==> TypeColumn in data.columns
    requires location != Wildcard ==> RegionColumn in data.columns
    ensures r.columns == data.columns
    ensures forall x :: x in r.rows ==> x in data.rows && Matches(airportType, location)(x)
    ensures forall x :: x in data.rows && Matches(airportType, location)(x) ==> x in r.rows
    ensures Canonical(data) ==> Canonical(r)
    ensures airportType == Wildcard && location == Wildcard ==> r == data
  {
    var byType := if airportType != Wildcard then Where(data, HasText(TypeColumn, airportType)) else data;
    if location != Wildcard then Where(byType, HasText(RegionColumn, location)) else byType
  }

  /** The two masks of `filter_data` amount to the single mask `Matches`. */
  lemma FilterIsOneMask(data: Frame, airportType: string, location: string)
    requires airportType != Wildcard ==> TypeColumn in data.columns
    requires location != Wildcard ==> RegionColumn in data.columns
    ensures FilterData(data, airportType, location).rows == Select(data.rows, Matches(airportType, location))
  {
    var m := Matches(airportType, location);
    var byType, inRegion := HasText(TypeColumn, airportType), HasText(RegionColumn, location);
    if airportType != Wildcard && location != Wildcard {
      SelectSelect(data.rows, byType, inRegion);
      SelectSame(data.rows, Both(byType, inRegion), m);
    } else if airportType != Wildcard {
      SelectSame(data.rows, byType, m);
    } else if location != Wildcard {
      SelectSame(data.rows, inRegion, m);
    } else {
      SelectAll(data.rows, m);
    }
  }

  /**
   * The filtered table is the subsequence of the input at the matching
   * positions: row k of the result is the input row at the k-th matching
   * index, so rows keep their relative order and none is duplicated.
   */
  lemma FilterKeepsOrder(data: Frame, airportType: string, location: string)
    requires airportType != Wildcard ==> TypeColumn in data.columns
    requires location != Wildcard ==> RegionColumn in data.columns
    ensures var r := FilterData(data, airportType, location);
            var idx := KeptIndices(data.rows, Matches(airportType, location));
            |r.rows| == |idx| && forall k :: 0 <= k < |idx| ==> r.rows[k] == data.rows[idx[k]]
  {
    FilterIsOneMask(data, airportType, location);
    SelectKeepsOrder(data.rows, Matches(airportType, location));
  }

  /** Filtering by type and then by region gives the same table as filtering by
      region and then by type. */
  lemma FilterCommutes(data: Frame, airportType: string, location: string)
    requires TypeColumn in data.columns && RegionColumn in data.columns
    ensures FilterData(FilterData(data, airportType, Wildcard), Wildcard, location)
         == FilterData(FilterData(data, Wildcard, location), airportType, Wildcard)
  {
    if airportType != Wildcard && location != Wildcard {
      SelectCommutes(data.rows, HasText(TypeColumn, airportType), HasText(RegionColumn, location));
    }
  }

  /** A selection that no row matches yields the empty table with the same
      columns, not an error. */
  lemma FilterNoMatch(data: Frame, airportType: string, location: string)
    requires airportType != Wildcard ==> TypeColumn in data.columns
    requires location != Wildcard ==> RegionColumn in data.columns
    requires forall x :: x in data.rows ==> !Matches(airportType, location)(x)
    ensures FilterData(data, airportType, location) == Frame(data.columns, [])
  {
    FilterIsOneMask(data, airportType, location);
    SelectNone(data.rows, Matches(airportType, location));
  }
}
