/** Counting distinct elements. */
module Counting {

  ghost predicate Distinct<T>(s: seq<T>) {
    forall i, j :: 0 <= i < j < |s| ==> s[i] != s[j]
  }

  ghost function SetOf<T>(s: seq<T>): set<T> { set x | x in s }

  ghost function Range(n: nat): (r: set<nat>)
    ensures |r| == n && forall i: nat :: i in r <==> i < n
  {
    if n == 0 then {} else Range(n - 1) + {n - 1}
  }

  lemma {:induction false} SubsetCard<T>(a: set<T>, b: set<T>)
    requires a <= b
    ensures |a| <= |b|
  {
    assert b == a + (b - a);
  }

  lemma {:induction false} SetOfDistinct<T>(s: seq<T>)
    requires Distinct(s)
    ensures |SetOf(s)| == |s|
  {
    if s != [] {
      var t := s[..|s| - 1];
      SetOfDistinct(t);
      assert s == t + [s[|s| - 1]];
      assert SetOf(s) == SetOf(t) + {s[|s| - 1]};
    }
  }

  /** Distinct numbers below `n` are at most `n`. */
  lemma {:induction false} DistinctBound(s: seq<nat>, n: nat)
    requires Distinct(s) && forall i :: 0 <= i < |s| ==> s[i] < n
    ensures |s| <= n
  {
    SetOfDistinct(s);
    SubsetCard(SetOf(s), Range(n));
  }
}
