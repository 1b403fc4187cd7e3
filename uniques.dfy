/**
 * Distinct values in first-seen order, as `Series.unique()` returns them.
 */
module Uniques {

  /** No value occurs twice. */
  predicate Distinct<T(==)>(s: seq<T>)
  {
    forall i, j :: 0 <= i < j < |s| ==> s[i] != s[j]
  }

  /** The position of the first occurrence of `x` in `s`. */
  function FirstIndex<T(==)>(s: seq<T>, x: T): (i: nat)
    requires x in s
    ensures i < |s| && s[i] == x && x !in s[..i]
  {
    if s[0] == x then 0
    else
      assert x in s[1..] by { assert s == [s[0]] + s[1..]; }
      var j := FirstIndex(s[1..], x);
      assert s[..j + 1] == [s[0]] + s[1..][..j];
      j + 1
  }

  /** The distinct values of `s`, each at the place where it first occurs. */
  function Unique<T(==)>(s: seq<T>): (u: seq<T>)
    ensures forall x :: x in u ==> x in s
    ensures forall x :: x in s ==> x in u
    ensures Distinct(u)
  {
    if s == [] then []
    else
      var init, last := s[..|s| - 1], s[|s| - 1];
      assert s == init + [last];
      var u := Unique(init);
      if last in init then u else u + [last]
  }

  /** A new first value extends a sequence without repetitions. */
  lemma DistinctCons<T>(h: T, t: seq<T>)
    requires Distinct(t) && h !in t
    ensures Distinct([h] + t)
  {
    var s := [h] + t;
    forall i, j | 0 <= i < j < |s| ensures s[i] != s[j] {
      assert s[j] == t[j - 1];
      if i > 0 {
        assert s[i] == t[i - 1];
      }
    }
  }

  /** A distinct sequence holds each of its values exactly once. */
  lemma {:induction false} DistinctOccurrences<T>(u: seq<T>, x: T)
    requires Distinct(u)
    ensures multiset(u)[x] == if x in u then 1 else 0
  {
    if u != [] {
      var init, last := u[..|u| - 1], u[|u| - 1];
      assert u == init + [last];
      assert Distinct(init);
      DistinctOccurrences(init, x);
      assert x == last ==> x !in init;
    }
  }

  /** The values of `Unique(s)` appear in the order of their first occurrence in `s`. */
  lemma {:induction false} UniqueFirstSeen<T>(s: seq<T>)
    ensures forall i, j :: 0 <= i < j < |Unique(s)| ==>
              FirstIndex(s, Unique(s)[i]) < FirstIndex(s, Unique(s)[j])
  {
    if s != [] {
      var init, last := s[..|s| - 1], s[|s| - 1];
      assert s == init + [last];
      UniqueFirstSeen(init);
      var u := Unique(init);
      forall x | x in init ensures FirstIndex(s, x) == FirstIndex(init, x) {
        var k := FirstIndex(init, x);
        assert s[..k] == init[..k];
        FirstIndexUnique(s, x, k);
      }
      if last !in init {
        assert FirstIndex(s, last) == |init| by {
          assert s[..|init|] == init;
          FirstIndexUnique(s, last, |init|);
        }
      }
    }
  }

  /** The first occurrence is the only position with its defining property. */
  lemma FirstIndexUnique<T>(s: seq<T>, x: T, k: nat)
    requires k < |s| && s[k] == x && x !in s[..k]
    ensures FirstIndex(s, x) == k
  {
  }
}
