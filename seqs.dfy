/** Facts about sequences of distinct location indices (the pigeonhole bound). */
module Seqs {

  /** No element occurs twice. */
  predicate Distinct<T(==)>(s: seq<T>)
  {
    forall a, b :: 0 <= a < b < |s| ==> s[a] != s[b]
  }

  /** Every element is an index below n. */
  predicate Below(s: seq<nat>, n: nat)
  {
    forall t :: 0 <= t < |s| ==> s[t] < n
  }

  /** The indices 0 .. n-1. */
  function Range(n: nat): (r: set<nat>)
    ensures forall x: nat :: x in r <==> x < n
    ensures |r| == n
  {
    if n == 0 then {} else Range(n - 1) + {n - 1}
  }

  /** The set of elements of s. */
  function Elems(s: seq<nat>): set<nat>
  {
    set x | x in s
  }

  lemma SubsetSize(a: set<nat>, b: set<nat>)
    requires a <= b
    ensures |a| <= |b|
  {
    assert b == a + (b - a);
    assert a * (b - a) == {};
  }

  lemma {:induction false} DistinctElements(s: seq<nat>)
    requires Distinct(s)
    ensures |Elems(s)| == |s|
  {
    if s != [] {
      var init := s[..|s| - 1];
      DistinctElements(init);
      assert s == init + [s[|s| - 1]];
      assert Elems(s) == Elems(init) + {s[|s| - 1]};
      assert s[|s| - 1] !in Elems(init);
    }
  }

  /** A sequence of distinct indices below n has at most n elements. */
  lemma DistinctBound(s: seq<nat>, n: nat)
    requires Distinct(s) && Below(s, n)
    ensures |s| <= n
  {
    DistinctElements(s);
    SubsetSize(Elems(s), Range(n));
  }

  /** A set of fewer than n indices below n misses one of them. */
  lemma MissingIndex(s: set<nat>, n: nat) returns (v: nat)
    requires |s| < n && forall x :: x in s ==> x < n
    ensures v < n && v !in s
  {
    if Range(n) <= s {
      SubsetSize(Range(n), s);
      assert false;
    }
    v :| v in Range(n) && v !in s;
  }
}
