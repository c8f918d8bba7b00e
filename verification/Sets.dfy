/** Facts about finite sets and sequences that the counting arguments share. */
module Sets {

  ghost predicate Distinct<T>(s: seq<T>) {
    forall i, j :: 0 <= i < j < |s| ==> s[i] != s[j]
  }

  ghost function Upto(n: nat): (r: set<nat>)
    ensures |r| == n && forall i: nat :: i in r <==> i < n
  {
    if n == 0 then {} else Upto(n - 1) + {n - 1}
  }

  lemma SubsetCard<T>(a: set<T>, b: set<T>)
    requires a <= b
    ensures |a| <= |b|
    ensures |a| == |b| ==> a == b
  {
    assert b == a + (b - a);
  }

  lemma RemoveOne<T>(s: set<T>, x: T)
    requires x in s
    ensures |s - {x}| == |s| - 1
  {
  }

  lemma Divided<T>(s: set<T>, p: set<T>)
    ensures |s| == |s - p| + |s * p|
  {
    assert s == (s - p) + (s * p);
  }

  lemma Singleton<T>(s: set<T>, x: T)
    requires x in s && |s| == 1
    ensures s == {x}
  {
    assert |s - {x}| == 0;
  }

  lemma Bounded(s: set<nat>, n: nat)
    requires forall x :: x in s ==> x < n
    ensures |s| <= n
    ensures |s| == n ==> s == Upto(n)
  {
    SubsetCard(s, Upto(n));
  }

  /** Taking `i` out of a set and perhaps putting it back. */
  lemma Replaced(a: set<nat>, b: set<nat>, i: nat, before: bool, after: bool)
    requires b == a - {i} + (if after then {i} else {}) && (i in a <==> before)
    ensures |b| == |a| - (if before then 1 else 0) + (if after then 1 else 0)
    ensures before ==> |a| >= 1
  {
  }

  ghost function Elements(s: seq<nat>): (r: set<nat>)
    ensures forall v :: v in r <==> v in s
  {
    set v | v in s
  }

  lemma {:induction false} DistinctCard(s: seq<nat>)
    requires Distinct(s)
    ensures |Elements(s)| == |s|
  {
    if s == [] {
      assert Elements(s) == {};
    } else {
      var t := s[..|s| - 1];
      DistinctCard(t);
      var last := s[|s| - 1];
      assert s == t + [last];
      assert last !in t;
      assert Elements(s) == Elements(t) + {last};
    }
  }

  /** Distinct members of a set are at most as many as it has. */
  lemma DistinctBound(s: seq<nat>, m: set<nat>)
    requires Distinct(s) && forall i :: 0 <= i < |s| ==> s[i] in m
    ensures |s| <= |m|
  {
    DistinctCard(s);
    SubsetCard(Elements(s), m);
  }

  /** An enumeration of the numbers below `n`. */
  lemma Enumerates(s: seq<nat>, n: nat)
    requires Distinct(s) && forall x: nat :: x in s <==> x < n
    ensures |s| == n
  {
    DistinctCard(s);
    assert Elements(s) == Upto(n);
  }
}
