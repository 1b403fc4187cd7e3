/**
 * Stable ranking by a numeric key, largest first: the ordering behind
 * `DataFrame.nlargest(n, column)` with its default `keep='first'`, and behind
 * the descending order of `Series.value_counts()`.
 */
module Ranking {
  import opened Selection
  import opened Uniques

  /** Keys never increase along `s`. */
  predicate Descending<T>(s: seq<T>, key: T -> real)
  {
    forall i, j :: 0 <= i < j < |s| ==> key(s[i]) >= key(s[j])
  }

  /** The mask of the elements whose key is exactly `e`. */
  function HasKey<T>(key: T -> real, e: real): T -> bool
  {
    x => key(x) == e
  }

  function Min(a: int, b: int): int
  {
    if a <= b then a else b
  }

  /** Places `x` after every leading element whose key is at least key(x), so
      that an element inserted later stays behind earlier ones of equal key. */
  function Insert<T>(x: T, s: seq<T>, key: T -> real): (r: seq<T>)
    ensures |r| == |s| + 1
    ensures multiset(r) == multiset(s) + multiset{x}
  {
    if s == [] then [x]
    else if key(s[0]) >= key(x) then
      assert s == [s[0]] + s[1..];
      [s[0]] + Insert(x, s[1..], key)
    else
      [x] + s
  }

  lemma DescendingTail<T>(s: seq<T>, key: T -> real)
    requires s != [] && Descending(s, key)
    ensures Descending(s[1..], key)
    ensures forall y :: y in s[1..] ==> key(y) <= key(s[0])
  {
    forall i, j | 0 <= i < j < |s[1..]| ensures key(s[1..][i]) >= key(s[1..][j]) {
      assert s[1..][i] == s[i + 1] && s[1..][j] == s[j + 1];
    }
    forall y | y in s[1..] ensures key(y) <= key(s[0]) {
      var j :| 0 <= j < |s[1..]| && s[1..][j] == y;
      assert s[j + 1] == y;
    }
  }

  /** A head whose key bounds every key of a descending tail extends it. */
  lemma DescendingCons<T>(h: T, t: seq<T>, key: T -> real)
    requires Descending(t, key)
    requires forall y :: y in t ==> key(y) <= key(h)
    ensures Descending([h] + t, key)
  {
    var r := [h] + t;
    forall i, j | 0 <= i < j < |r| ensures key(r[i]) >= key(r[j]) {
      assert r[j] == t[j - 1];
      if i == 0 {
        assert t[j - 1] in t;
      } else {
        assert r[i] == t[i - 1];
      }
    }
  }

  /** Insertion keeps a descending sequence descending. */
  lemma {:induction false} InsertDescending<T>(x: T, s: seq<T>, key: T -> real)
    requires Descending(s, key)
    ensures Descending(Insert(x, s, key), key)
  {
    if s == [] {
    } else if key(s[0]) >= key(x) {
      DescendingTail(s, key);
      InsertDescending(x, s[1..], key);
      var rest := Insert(x, s[1..], key);
      forall y | y in rest ensures key(y) <= key(s[0]) {
        assert y in multiset(rest);
      }
      DescendingCons(s[0], rest, key);
    } else {
      DescendingTail(s, key);
      DescendingCons(x, s, key);
    }
  }

  /** Stable sort by descending key (insertion sort, taking the input from left to right). */
  function SortDesc<T>(s: seq<T>, key: T -> real): (r: seq<T>)
    ensures |r| == |s|
    ensures multiset(r) == multiset(s)
    ensures Descending(r, key)
  {
    if s == [] then []
    else
      assert s == s[..|s| - 1] + [s[|s| - 1]];
      var sorted := SortDesc(s[..|s| - 1], key);
      InsertDescending(s[|s| - 1], sorted, key);
      Insert(s[|s| - 1], sorted, key)
  }

  /** Sorting neither adds nor removes a value. */
  lemma SortSameElements<T>(s: seq<T>, key: T -> real)
    ensures forall x :: x in SortDesc(s, key) <==> x in s
  {
    forall x ensures x in SortDesc(s, key) <==> x in s {
      assert x in SortDesc(s, key) <==> x in multiset(SortDesc(s, key));
      assert x in s <==> x in multiset(s);
    }
  }

  /** Inserting `x` into a descending sequence appends it to the run of its own key. */
  lemma {:induction false} InsertStable<T>(x: T, s: seq<T>, key: T -> real, e: real)
    requires Descending(s, key)
    ensures Select(Insert(x, s, key), HasKey(key, e))
         == Select(s, HasKey(key, e)) + (if key(x) == e then [x] else [])
  {
    var eq := HasKey(key, e);
    if s == [] {
      assert [x][1..] == [];
    } else if key(s[0]) >= key(x) {
      var rest := Insert(x, s[1..], key);
      var extra := if key(x) == e then [x] else [];
      var head := if eq(s[0]) then [s[0]] else [];
      DescendingTail(s, key);
      InsertStable(x, s[1..], key, e);
      SelectCons(s[0], rest, eq);
      var b := Select(s[1..], eq);
      assert Select(s, eq) == head + b;
      assert Select(Insert(x, s, key), eq) == head + (b + extra);
      AppendAssoc(head, b, extra);
    } else {
      if key(x) == e {
        DescendingTail(s, key);
        assert forall y :: y in s ==> key(y) < e by {
          forall y | y in s ensures key(y) < e {
            assert y == s[0] || y in s[1..];
          }
        }
        SelectNone(s, eq);
      }
      SelectCons(x, s, eq);
    }
  }

  /** The sort is stable: the elements of any one key keep their input order. */
  lemma {:induction false} SortStable<T>(s: seq<T>, key: T -> real, e: real)
    ensures Select(SortDesc(s, key), HasKey(key, e)) == Select(s, HasKey(key, e))
  {
    if s != [] {
      var init, last := s[..|s| - 1], s[|s| - 1];
      var eq := HasKey(key, e);
      var extra := if key(last) == e then [last] else [];
      SortStable(init, key, e);
      InsertStable(last, SortDesc(init, key), key, e);
      assert SortDesc(s, key) == Insert(last, SortDesc(init, key), key);
      SplitLast(s);
      SelectAppend(init, [last], eq);
      SelectCons(last, [], eq);
      assert [last] + [] == [last];
      assert Select([last], eq) == extra;
    }
  }

  /** The first `n` elements by descending key, earlier elements first among equal keys. */
  function Top<T>(s: seq<T>, n: nat, key: T -> real): (r: seq<T>)
    ensures |r| == Min(n, |s|)
    ensures Descending(r, key)
    ensures multiset(r) <= multiset(s)
  {
    var sorted := SortDesc(s, key);
    assert sorted == sorted[..Min(n, |s|)] + sorted[Min(n, |s|)..];
    sorted[..Min(n, |s|)]
  }

  /** Nothing left out of the top `n` has a strictly larger key than anything kept. */
  lemma TopLeavesOutNoLarger<T>(s: seq<T>, n: nat, key: T -> real)
    ensures forall x, y :: x in multiset(s) - multiset(Top(s, n, key)) && y in Top(s, n, key)
              ==> key(x) <= key(y)
  {
    var sorted, m := SortDesc(s, key), Min(n, |s|);
    var kept, rest := sorted[..m], sorted[m..];
    assert sorted == kept + rest;
    forall x, y | x in multiset(s) - multiset(kept) && y in kept
      ensures key(x) <= key(y)
    {
      assert multiset(s) == multiset(kept) + multiset(rest);
      assert x in rest;
      var j :| 0 <= j < |rest| && rest[j] == x;
      var i :| 0 <= i < |kept| && kept[i] == y;
      assert sorted[i] == y && sorted[m + j] == x;
    }
  }

  /** Ties are broken by input order: among the elements of any one key, those
      kept are the earliest ones of that key in the input. */
  lemma TopKeepsFirstOfTies<T>(s: seq<T>, n: nat, key: T -> real)
    ensures forall e :: Select(Top(s, n, key), HasKey(key, e)) <= Select(s, HasKey(key, e))
  {
    var sorted := SortDesc(s, key);
    forall e ensures Select(Top(s, n, key), HasKey(key, e)) <= Select(s, HasKey(key, e)) {
      SelectPrefix(sorted, Min(n, |s|), HasKey(key, e));
      SortStable(s, key, e);
    }
  }

  /** Inserting a new value into a sequence without repetitions keeps it without repetitions. */
  lemma {:induction false} InsertDistinct<T>(x: T, s: seq<T>, key: T -> real)
    requires Distinct(s) && x !in s
    ensures Distinct(Insert(x, s, key))
  {
    if s != [] && key(s[0]) >= key(x) {
      var head, tail := s[0], s[1..];
      var rest := Insert(x, tail, key);
      assert s == [head] + tail;
      InsertDistinct(x, tail, key);
      assert head !in tail && head != x;
      assert head !in multiset(tail) + multiset{x};
      assert head !in rest;
      DistinctCons(head, rest);
    } else if s != [] {
      DistinctCons(x, s);
    }
  }

  /** Sorting a sequence without repetitions gives one without repetitions. */
  lemma {:induction false} SortDistinct<T>(s: seq<T>, key: T -> real)
    requires Distinct(s)
    ensures Distinct(SortDesc(s, key))
  {
    if s != [] {
      var init, last := s[..|s| - 1], s[|s| - 1];
      SplitLast(s);
      assert Distinct(init);
      SortDistinct(init, key);
      assert last !in multiset(init);
      assert last !in SortDesc(init, key);
      InsertDistinct(last, SortDesc(init, key), key);
    }
  }
}
