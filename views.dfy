/**
 * The views the dashboard derives from the filtered table: the five highest
 * airports, the number of airports per type, the rows the map can place, and
 * the choices offered by the two selectors.
 */
module Views {
  import opened Wrappers
  import opened Selection
  import opened Uniques
  import opened Ranking
  import opened Frames

  // ---------------------------------------------------------------- top five

  /** How many rows the elevation ranking shows. */
  const TopCount: nat := 5

  /** The elevation of a row as a ranking key (every loaded row has a numeric one). */
  function Elevation(r: Row): real
  {
    if Field(r, ElevationColumn).Num? then Field(r, ElevationColumn).value else 0.0
  }

  /**
   * `filtered_data.nlargest(5, 'elevation_ft')`: at most five rows, highest
   * first; nothing left out is higher than anything shown; among rows of equal
   * elevation the earlier ones are shown (`keep='first'`).
   */
  function Top5(f: Frame): (t: Frame)
    requires forall r :: r in f.rows ==> Field(r, ElevationColumn).Num?
    ensures t.columns == f.columns
    ensures |t.rows| == Min(TopCount, |f.rows|)
    ensures Descending(t.rows, Elevation)
    ensures multiset(t.rows) <= multiset(f.rows)
    ensures forall x, y :: x in multiset(f.rows) - multiset(t.rows) && y in t.rows
              ==> Elevation(x) <= Elevation(y)
    ensures forall e :: Select(t.rows, HasKey(Elevation, e)) <= Select(f.rows, HasKey(Elevation, e))
  {
    TopLeavesOutNoLarger(f.rows, TopCount, Elevation);
    TopKeepsFirstOfTies(f.rows, TopCount, Elevation);
    Frame(f.columns, Top(f.rows, TopCount, Elevation))
  }

  // ------------------------------------------------------------- type counts

  /** One bar of the type chart: an airport type and how many rows have it. */
  datatype TypeCount = TypeCount(kind: string, count: nat)

  /** The count of every value of `kinds`, taken from the multiset `m`. */
  function CountsOf(kinds: seq<string>, m: multiset<string>): (r: seq<TypeCount>)
    ensures |r| == |kinds|
    ensures forall i :: 0 <= i < |r| ==> r[i] == TypeCount(kinds[i], m[kinds[i]])
  {
    seq(|kinds|, i requires 0 <= i < |kinds| => TypeCount(kinds[i], m[kinds[i]]))
  }

  /** The sum of the counts. */
  function Total(r: seq<TypeCount>): nat
  {
    if r == [] then 0 else r[0].count + Total(r[1..])
  }

  function CountKey(c: TypeCount): real
  {
    c.count as real
  }

  lemma {:induction false} TotalAppend(a: seq<TypeCount>, b: seq<TypeCount>)
    ensures Total(a + b) == Total(a) + Total(b)
  {
    if a != [] {
      assert (a + b)[1..] == a[1..] + b;
      TotalAppend(a[1..], b);
    } else {
      assert a + b == b;
    }
  }

  /** One more occurrence of `x` adds one to the total for every time `x` is listed. */
  lemma {:induction false} TotalOneMore(kinds: seq<string>, m: multiset<string>, x: string)
    ensures Total(CountsOf(kinds, m + multiset{x})) == Total(CountsOf(kinds, m)) + multiset(kinds)[x]
  {
    if kinds != [] {
      var init, last := kinds[..|kinds| - 1], kinds[|kinds| - 1];
      SplitLast(kinds);
      TotalOneMore(init, m, x);
      assert CountsOf(kinds, m) == CountsOf(init, m) + [TypeCount(last, m[last])];
      assert CountsOf(kinds, m + multiset{x})
          == CountsOf(init, m + multiset{x}) + [TypeCount(last, (m + multiset{x})[last])];
      TotalAppend(CountsOf(init, m), [TypeCount(last, m[last])]);
      TotalAppend(CountsOf(init, m + multiset{x}), [TypeCount(last, (m + multiset{x})[last])]);
      assert multiset(kinds) == multiset(init) + multiset{last};
    }
  }

  /** The counts of the distinct values add up to the number of values. */
  lemma {:induction false} CountsSumToLength(values: seq<string>)
    ensures Total(CountsOf(Unique(values), multiset(values))) == |values|
  {
    if values != [] {
      var init, x := values[..|values| - 1], values[|values| - 1];
      SplitLast(values);
      CountsSumToLength(init);
      var u := Unique(init);
      assert multiset(values) == multiset(init) + multiset{x};
      TotalOneMore(u, multiset(init), x);
      DistinctOccurrences(u, x);
      if x !in init {
        assert Unique(values) == u + [x];
        assert CountsOf(u + [x], multiset(values))
            == CountsOf(u, multiset(values)) + [TypeCount(x, multiset(values)[x])];
        TotalAppend(CountsOf(u, multiset(values)), [TypeCount(x, multiset(values)[x])]);
      }
    }
  }

  lemma {:induction false} TotalInsert(x: TypeCount, s: seq<TypeCount>)
    ensures Total(Insert(x, s, CountKey)) == x.count + Total(s)
  {
    if s != [] && CountKey(s[0]) >= CountKey(x) {
      TotalInsert(x, s[1..]);
      assert ([s[0]] + Insert(x, s[1..], CountKey))[1..] == Insert(x, s[1..], CountKey);
    } else if s != [] {
      assert ([x] + s)[1..] == s;
    }
  }

  /** Ranking the bars does not change their total. */
  lemma {:induction false} TotalSort(s: seq<TypeCount>)
    ensures Total(SortDesc(s, CountKey)) == Total(s)
  {
    if s != [] {
      var init, last := s[..|s| - 1], s[|s| - 1];
      SplitLast(s);
      TotalSort(init);
      TotalInsert(last, SortDesc(init, CountKey));
      TotalAppend(init, [last]);
    }
  }

  /** The facts about the unranked counts that the ranking then carries over. */
  lemma CountsFacts(values: seq<string>)
    ensures var counts := CountsOf(Unique(values), multiset(values));
            && (forall c :: c in counts ==> c.kind in values && c.count == multiset(values)[c.kind])
            && (forall t :: t in values ==> TypeCount(t, multiset(values)[t]) in counts)
            && Distinct(counts)
            && Total(counts) == |values|
  {
    var u := Unique(values);
    var counts := CountsOf(u, multiset(values));
    forall t | t in values ensures TypeCount(t, multiset(values)[t]) in counts {
      var i :| 0 <= i < |u| && u[i] == t;
      assert counts[i] == TypeCount(t, multiset(values)[t]);
    }
    forall i, j | 0 <= i < j < |counts| ensures counts[i] != counts[j] {
      assert u[i] != u[j];
    }
    CountsSumToLength(values);
  }

  /** Entries without repetitions, each determined by its kind, have distinct kinds. */
  lemma DistinctKinds(r: seq<TypeCount>, values: seq<string>)
    requires Distinct(r)
    requires forall c :: c in r ==> c.count == multiset(values)[c.kind]
    ensures forall i, j :: 0 <= i < j < |r| ==> r[i].kind != r[j].kind
  {
    forall i, j | 0 <= i < j < |r| ensures r[i].kind != r[j].kind {
      assert r[i] in r && r[j] in r;
    }
  }

  /**
   * `Series.value_counts()` on a list of values: one entry per distinct value
   * with the number of its occurrences, largest count first; the counts add
   * up to the number of values.
   */
  function ValueCounts(values: seq<string>): (r: seq<TypeCount>)
    ensures forall c :: c in r ==> c.kind in values && c.count == multiset(values)[c.kind]
    ensures forall t :: t in values ==> TypeCount(t, multiset(values)[t]) in r
    ensures forall i, j :: 0 <= i < j < |r| ==> r[i].kind != r[j].kind
    ensures Total(r) == |values|
    ensures Descending(r, CountKey)
  {
    var counts := CountsOf(Unique(values), multiset(values));
    CountsFacts(values);
    TotalSort(counts);
    SortDistinct(counts, CountKey);
    SortSameElements(counts, CountKey);
    DistinctKinds(SortDesc(counts, CountKey), values);
    SortDesc(counts, CountKey)
  }

  /**
   * `data['type'].value_counts()` on a table: one entry per airport type that
   * occurs, whose count is the number of rows of that type, largest count
   * first. On a loaded table the counts add up to the number of rows.
   */
  function TypeCounts(f: Frame): (r: seq<TypeCount>)
    requires TypeColumn in f.columns
    ensures forall c :: c in r ==> c.count > 0 && c.count == |Select(f.rows, HasText(TypeColumn, c.kind))|
    ensures forall row :: row in f.rows && Field(row, TypeColumn).Text? ==>
              var t := Field(row, TypeColumn).text;
              TypeCount(t, |Select(f.rows, HasText(TypeColumn, t))|) in r
    ensures forall i, j :: 0 <= i < j < |r| ==> r[i].kind != r[j].kind
    ensures Descending(r, CountKey)
    ensures Canonical(f) ==> Total(r) == |f.rows|
  {
    TypeValues(f);
    ColumnTextsHas(f.rows, TypeColumn);
    ValueCounts(ColumnTexts(f.rows, TypeColumn))
  }

  /** The type column's values, as `value_counts` sees them. */
  lemma TypeValues(f: Frame)
    requires TypeColumn in f.columns
    ensures forall t :: multiset(ColumnTexts(f.rows, TypeColumn))[t]
                        == |Select(f.rows, HasText(TypeColumn, t))|
    ensures Canonical(f) ==> |ColumnTexts(f.rows, TypeColumn)| == |f.rows|
  {
    forall t ensures multiset(ColumnTexts(f.rows, TypeColumn))[t]
                     == |Select(f.rows, HasText(TypeColumn, t))| {
      ColumnTextsCount(f.rows, TypeColumn, t);
    }
    if Canonical(f) {
      forall r | r in f.rows ensures Field(r, TypeColumn).Text? {
        assert TypeColumn in r && !IsNumericColumn(TypeColumn);
      }
      ColumnTextsLength(f.rows, TypeColumn);
    }
  }

  // ------------------------------------------------------------ map subset

  /** The rows with both coordinates: `dropna(subset=['longitude_deg', 'latitude_deg'])`. */
  predicate HasCoordinates(r: Row)
  {
    Field(r, LongitudeColumn) != Missing && Field(r, LatitudeColumn) != Missing
  }

  /** The table the map draws, or `None` when a coordinate column is absent
      (the dashboard then shows an error instead of the map). */
  function Located(f: Frame): (m: Option<Frame>)
    ensures m.Some? <==> LongitudeColumn in f.columns && LatitudeColumn in f.columns
    ensures m.Some? ==> m.value.columns == f.columns
    ensures m.Some? ==> forall r :: r in m.value.rows <==> r in f.rows && HasCoordinates(r)
  {
    if LongitudeColumn in f.columns && LatitudeColumn in f.columns
    then Some(Where(f, HasCoordinates))
    else None
  }

  /** On a loaded table the re-filter for the map changes nothing. */
  lemma LocatedIsNoOp(f: Frame)
    requires Canonical(f)
    ensures Located(f) == Some(f)
  {
    forall r: Row | r in f.rows ensures HasCoordinates(r) {
      assert LongitudeColumn in r && LatitudeColumn in r;
      assert r[LongitudeColumn].Num? && r[LatitudeColumn].Num?;
    }
    SelectAll(f.rows, HasCoordinates);
  }

  // --------------------------------------------------------- selector options

  /**
   * `["all"] + list(data[c].unique())`: the wildcard, then each value of
   * column `c` once, in the order of first appearance; `None` stands for the
   * KeyError pandas raises when the column is absent.
   */
  function Options(f: Frame, c: string): (o: Option<seq<string>>)
    ensures o.Some? <==> c in f.columns
    ensures o.Some? ==> |o.value| >= 1 && o.value[0] == Wildcard && Distinct(o.value[1..])
    ensures o.Some? ==> forall t :: t in o.value[1..] <==> t in ColumnTexts(f.rows, c)
    ensures o.Some? ==> forall i, j :: 1 <= i < j < |o.value| ==>
              && o.value[i] in ColumnTexts(f.rows, c) && o.value[j] in ColumnTexts(f.rows, c)
              && FirstIndex(ColumnTexts(f.rows, c), o.value[i]) < FirstIndex(ColumnTexts(f.rows, c), o.value[j])
  {
    if c in f.columns then
      var u := Unique(ColumnTexts(f.rows, c));
      assert ([Wildcard] + u)[1..] == u;
      UniqueFirstSeen(ColumnTexts(f.rows, c));
      Some([Wildcard] + u)
    else None
  }
}
