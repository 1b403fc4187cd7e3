/**
 * Small concrete tables worked through the model, to show what the views
 * produce on a recognisable input.
 */
module Scenarios {
  import opened Frames
  import opened Views
  import opened Ranking
  import opened Uniques

  /** A row with just a type and an elevation. */
  function Airport(kind: string, elevation: real): Row
  {
    map[TypeColumn := Text(kind), ElevationColumn := Num(elevation)]
  }

  /** Ranking three airports of elevations 10, 500 and 200 by elevation. */
  lemma SortThree()
    ensures SortDesc([Airport("a", 10.0), Airport("b", 500.0), Airport("c", 200.0)], Elevation)
         == [Airport("b", 500.0), Airport("c", 200.0), Airport("a", 10.0)]
  {
    var a, b, c := Airport("a", 10.0), Airport("b", 500.0), Airport("c", 200.0);
    assert Elevation(a) == 10.0 && Elevation(b) == 500.0 && Elevation(c) == 200.0;
    assert [a, b, c][..2] == [a, b] && [a, b][..1] == [a] && [a][..0] == [];
    assert SortDesc([a], Elevation) == [a];
    assert SortDesc([a, b], Elevation) == [b, a];
    assert [b, a][1..] == [a];
    assert Insert(c, [a], Elevation) == [c, a];
  }

  /** Fewer than five rows: the ranking shows all of them, highest first. */
  lemma Top5Example()
    ensures Top5(Frame({TypeColumn, ElevationColumn}, [Airport("a", 10.0), Airport("b", 500.0), Airport("c", 200.0)])).rows
         == [Airport("b", 500.0), Airport("c", 200.0), Airport("a", 10.0)]
  {
    SortThree();
    var a, b, c := Airport("a", 10.0), Airport("b", 500.0), Airport("c", 200.0);
    assert [b, c, a][..3] == [b, c, a];
  }

  /** The selector lists each value once, in order of first appearance. */
  lemma UniqueExample()
    ensures Unique(["heliport", "heliport", "small_airport"]) == ["heliport", "small_airport"]
  {
    var s := ["heliport", "heliport", "small_airport"];
    assert s[..2] == ["heliport", "heliport"] && s[..2][..1] == ["heliport"];
    assert Unique(["heliport"]) == ["heliport"];
    assert Unique(s[..2]) == ["heliport"];
    assert "small_airport" !in s[..2];
  }

  /** Two heliports and one small airport give two bars, the larger first. */
  lemma CountsExample()
    ensures ValueCounts(["heliport", "heliport", "small_airport"])
         == [TypeCount("heliport", 2), TypeCount("small_airport", 1)]
  {
    var values := ["heliport", "heliport", "small_airport"];
    UniqueExample();
    var counts := CountsOf(Unique(values), multiset(values));
    assert multiset(values)["heliport"] == 2 && multiset(values)["small_airport"] == 1;
    assert counts == [TypeCount("heliport", 2), TypeCount("small_airport", 1)];
    assert counts[..1] == [TypeCount("heliport", 2)] && counts[..1][..0] == [];
  }
}
