/**
 * Order-preserving selection of the elements of a sequence that satisfy a
 * predicate: the boolean-mask indexing `frame[mask]` that the loader's
 * `dropna`, `filter_data` and the geolocatable re-filter are all made of.
 */
module Selection {

  /** The elements of `s` for which `keep` holds, in their original order. */
  function Select<T>(s: seq<T>, keep: T -> bool): (r: seq<T>)
    ensures |r| <= |s|
    ensures forall x :: x in r ==> x in s && keep(x)
    ensures forall x :: x in s && keep(x) ==> x in r
    ensures multiset(r) <= multiset(s)
  {
    if s == [] then []
    else
      assert s == [s[0]] + s[1..];
      (if keep(s[0]) then [s[0]] else []) + Select(s[1..], keep)
  }

  /** The conjunction of two row predicates, as one mask. */
  function Both<T>(p: T -> bool, q: T -> bool): T -> bool
  {
    x => p(x) && q(x)
  }

  /** The negation of a row predicate. */
  function Not<T>(p: T -> bool): T -> bool
  {
    x => !p(x)
  }

  /**
   * The positions `i >= from` of `s` whose element satisfies `keep`, in
   * increasing order: the index labels a mask keeps.
   */
  function KeptFrom<T>(s: seq<T>, keep: T -> bool, from: nat): (idx: seq<nat>)
    requires from <= |s|
    ensures forall k :: 0 <= k < |idx| ==> from <= idx[k] < |s| && keep(s[idx[k]])
    ensures forall k, m :: 0 <= k < m < |idx| ==> idx[k] < idx[m]
    ensures forall i :: from <= i < |s| && keep(s[i]) ==> i in idx
    decreases |s| - from
  {
    if from == |s| then []
    else (if keep(s[from]) then [from] else []) + KeptFrom(s, keep, from + 1)
  }

  /** Every position of `s` whose element satisfies `keep`, in increasing order. */
  function KeptIndices<T>(s: seq<T>, keep: T -> bool): (idx: seq<nat>)
    ensures forall k :: 0 <= k < |idx| ==> idx[k] < |s| && keep(s[idx[k]])
    ensures forall k, m :: 0 <= k < m < |idx| ==> idx[k] < idx[m]
    ensures forall i :: 0 <= i < |s| ==> (i in idx <==> keep(s[i]))
  {
    KeptFrom(s, keep, 0)
  }

  lemma {:induction false} SelectFrom<T>(s: seq<T>, keep: T -> bool, from: nat)
    requires from <= |s|
    ensures var idx := KeptFrom(s, keep, from);
            |Select(s[from..], keep)| == |idx| &&
            forall k :: 0 <= k < |idx| ==> Select(s[from..], keep)[k] == s[idx[k]]
    decreases |s| - from
  {
    if from < |s| {
      SelectFrom(s, keep, from + 1);
      assert s[from..][0] == s[from];
      assert s[from..][1..] == s[from + 1..];
    }
  }

  /**
   * A selection is the subsequence of the input at the kept positions: the
   * k-th selected element is the element at the k-th kept index. With the
   * contract of KeptIndices this says the selection keeps exactly the
   * satisfying elements, in their original order, and invents none.
   */
  lemma SelectKeepsOrder<T>(s: seq<T>, keep: T -> bool)
    ensures var idx := KeptIndices(s, keep);
            |Select(s, keep)| == |idx| &&
            forall k :: 0 <= k < |idx| ==> Select(s, keep)[k] == s[idx[k]]
  {
    SelectFrom(s, keep, 0);
    assert s[0..] == s;
  }

  /** Two sequences of the same length whose elements agree pointwise on the
      two predicates have the same kept positions. */
  lemma {:induction false} KeptFromAgree<T, U>(s: seq<T>, p: T -> bool, t: seq<U>, q: U -> bool, from: nat)
    requires |s| == |t| && from <= |s|
    requires forall i :: from <= i < |s| ==> p(s[i]) == q(t[i])
    ensures KeptFrom(s, p, from) == KeptFrom(t, q, from)
    decreases |s| - from
  {
    if from < |s| {
      KeptFromAgree(s, p, t, q, from + 1);
      var head := if p(s[from]) then [from] else [];
      assert KeptFrom(s, p, from) == head + KeptFrom(s, p, from + 1);
      assert KeptFrom(t, q, from) == head + KeptFrom(t, q, from + 1);
    }
  }

  /** A mask that holds of no element selects nothing. */
  lemma {:induction false} SelectNone<T>(s: seq<T>, keep: T -> bool)
    requires forall x :: x in s ==> !keep(x)
    ensures Select(s, keep) == []
  {
    if s != [] {
      assert forall x :: x in s[1..] ==> x in s;
      SelectNone(s[1..], keep);
    }
  }

  lemma SplitLast<T>(s: seq<T>)
    requires s != []
    ensures s == s[..|s| - 1] + [s[|s| - 1]]
  {
  }

  lemma AppendAssoc<T>(a: seq<T>, b: seq<T>, c: seq<T>)
    ensures a + (b + c) == (a + b) + c
  {
  }

  /** Selecting from a sequence with a given first element. */
  lemma SelectCons<T>(h: T, t: seq<T>, keep: T -> bool)
    ensures Select([h] + t, keep) == (if keep(h) then [h] else []) + Select(t, keep)
  {
    assert ([h] + t)[0] == h && ([h] + t)[1..] == t;
  }

  lemma {:induction false} SelectAppend<T>(a: seq<T>, b: seq<T>, keep: T -> bool)
    ensures Select(a + b, keep) == Select(a, keep) + Select(b, keep)
  {
    if a == [] {
      assert a + b == b;
    } else {
      assert (a + b)[0] == a[0];
      assert (a + b)[1..] == a[1..] + b;
      SelectAppend(a[1..], b, keep);
    }
  }

  /** Selecting with `p` and then with `q` is one selection with both. */
  lemma {:induction false} SelectSelect<T>(s: seq<T>, p: T -> bool, q: T -> bool)
    ensures Select(Select(s, p), q) == Select(s, Both(p, q))
  {
    if s != [] {
      SelectSelect(s[1..], p, q);
      var head := if p(s[0]) then [s[0]] else [];
      SelectAppend(head, Select(s[1..], p), q);
      if p(s[0]) {
        assert Select(head, q) == if q(s[0]) then [s[0]] else [] by {
          assert head[1..] == [];
        }
      }
    }
  }

  /** Selections with pointwise-equal predicates are equal. */
  lemma {:induction false} SelectSame<T>(s: seq<T>, p: T -> bool, q: T -> bool)
    requires forall x :: x in s ==> p(x) == q(x)
    ensures Select(s, p) == Select(s, q)
  {
    if s != [] {
      assert forall x :: x in s[1..] ==> x in s;
      SelectSame(s[1..], p, q);
    }
  }

  /** Masks commute: the order in which two selections are applied does not matter. */
  lemma SelectCommutes<T>(s: seq<T>, p: T -> bool, q: T -> bool)
    ensures Select(Select(s, p), q) == Select(Select(s, q), p)
  {
    SelectSelect(s, p, q);
    SelectSelect(s, q, p);
    SelectSame(s, Both(p, q), Both(q, p));
  }

  /** A mask that holds of every element selects the whole sequence. */
  lemma {:induction false} SelectAll<T>(s: seq<T>, keep: T -> bool)
    requires forall x :: x in s ==> keep(x)
    ensures Select(s, keep) == s
  {
    if s != [] {
      assert forall x :: x in s[1..] ==> x in s;
      SelectAll(s[1..], keep);
      assert s == [s[0]] + s[1..];
    }
  }

  /** A mask and its negation split the sequence between them. */
  lemma {:induction false} SelectPartition<T>(s: seq<T>, keep: T -> bool)
    ensures |Select(s, keep)| + |Select(s, Not(keep))| == |s|
  {
    if s != [] {
      SelectPartition(s[1..], keep);
    }
  }

  /** A weaker mask keeps at least as many elements. */
  lemma {:induction false} SelectMonotone<T>(s: seq<T>, p: T -> bool, q: T -> bool)
    requires forall x :: x in s && p(x) ==> q(x)
    ensures |Select(s, p)| <= |Select(s, q)|
  {
    if s != [] {
      assert forall x :: x in s[1..] ==> x in s;
      SelectMonotone(s[1..], p, q);
    }
  }

  /** Selecting from a prefix gives a prefix of the selection. */
  lemma SelectPrefix<T>(s: seq<T>, n: nat, keep: T -> bool)
    requires n <= |s|
    ensures Select(s[..n], keep) <= Select(s, keep)
  {
    var a, b := s[..n], s[n..];
    assert a + b == s;
    SelectAppend(a, b, keep);
    var x, y := Select(a, keep), Select(b, keep);
    assert (x + y)[..|x|] == x;
  }
}
