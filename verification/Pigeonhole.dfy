// Counting facts that several components use.
module Pigeonhole {
  ghost predicate Distinct<T>(xs: seq<T>) {
    forall i, j :: 0 <= i < j < |xs| ==> xs[i] != xs[j]
  }

  /** Distinct values drawn from a set are no more than the set has. */
  lemma {:induction false} DistinctFit<T>(xs: seq<T>, s: set<T>)
    requires Distinct(xs) && forall i :: 0 <= i < |xs| ==> xs[i] in s
    ensures |xs| <= |s|
  {
    if xs != [] {
      var n := |xs| - 1;
      DistinctFit(xs[..n], s - {xs[n]});
    }
  }

  /** How many elements satisfy a test. */
  function Count<T(!new)>(xs: seq<T>, which: T -> bool): nat {
    if xs == [] then 0 else Count(xs[..|xs| - 1], which) + if which(xs[|xs| - 1]) then 1 else 0
  }

  lemma {:induction false} CountConcat<T(!new)>(a: seq<T>, b: seq<T>, which: T -> bool)
    ensures Count(a + b, which) == Count(a, which) + Count(b, which)
  {
    if b == [] {
      assert a + b == a;
    } else {
      CountConcat(a, b[..|b| - 1], which);
      assert (a + b)[..|a + b| - 1] == a + b[..|b| - 1];
    }
  }

  /** The same elements in another order are as many. */
  lemma SameLength<T>(a: seq<T>, b: seq<T>)
    requires multiset(a) == multiset(b)
    ensures |a| == |b|
  {
    assert |multiset(a)| == |a| && |multiset(b)| == |b|;
  }
}
