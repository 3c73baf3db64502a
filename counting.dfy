/** Facts about finite sets of small naturals used to reason about card ids. */
module Counting {

  /** The ids 0 .. n-1. */
  ghost function Range(n: nat): (r: set<int>)
    ensures forall k :: k in r <==> 0 <= k < n
    ensures |r| == n
  {
    if n == 0 then {} else Range(n - 1) + {n - 1}
  }

  /** No value occurs twice in `xs`. */
  ghost predicate Distinct(xs: seq<int>)
  {
    forall i, j :: 0 <= i < j < |xs| ==> xs[i] != xs[j]
  }

  lemma {:induction false} DistinctSize(xs: seq<int>)
    requires Distinct(xs)
    ensures |set x | x in xs| == |xs|
  {
    if xs != [] {
      var init := xs[..|xs| - 1];
      var last := xs[|xs| - 1];
      DistinctSize(init);
      assert (set x | x in xs) == (set x | x in init) + {last};
      assert last !in (set x | x in init);
    }
  }

  lemma {:induction false} SubsetOfEqualSize(a: set<int>, b: set<int>)
    requires a <= b && |a| == |b|
    ensures a == b
  {
    assert a + b == b;
    assert a * b == a;
    assert a - b == {};
    assert |b - a| == 0;
  }

  /** Pigeonhole: n distinct ids below n cover every id below n. */
  lemma {:induction false} CoversRange(xs: seq<int>, n: nat)
    requires |xs| == n && Distinct(xs)
    requires forall i :: 0 <= i < |xs| ==> 0 <= xs[i] < n
    ensures forall k :: 0 <= k < n ==> k in xs
  {
    var seen := set x | x in xs;
    DistinctSize(xs);
    assert seen <= Range(n);
    SubsetOfEqualSize(seen, Range(n));
    forall k | 0 <= k < n ensures k in xs {
      assert k in Range(n);
    }
  }
}
