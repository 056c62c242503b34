/** Counting arguments over finite sets and duplicate-free sequences. */
module Counting {

  ghost predicate Distinct<T(!new)>(q: seq<T>) { forall i, j :: 0 <= i < j < |q| ==> q[i] != q[j] }

  ghost function Upto(n: nat): (s: set<nat>)
    ensures |s| == n && forall x: nat :: x in s <==> x < n
  {
    if n == 0 then {}
    else
      var s' := Upto(n - 1);
      assert n - 1 !in s';
      s' + {n - 1}
  }

  ghost function Elements<T(!new)>(q: seq<T>): (s: set<T>)
    ensures forall x :: x in s <==> x in q
  {
    if q == [] then {} else Elements(q[..|q| - 1]) + {q[|q| - 1]}
  }

  lemma {:induction false} ElementsCount<T(!new)>(q: seq<T>)
    requires Distinct(q)
    ensures |Elements(q)| == |q|
  {
    if q != [] {
      ElementsCount(q[..|q| - 1]);
      assert q[|q| - 1] !in q[..|q| - 1];
    }
  }

  lemma {:induction false} SubsetSize<T(!new)>(a: set<T>, b: set<T>)
    requires a <= b
    ensures |a| <= |b|
  {
    if a != {} {
      var x :| x in a;
      SubsetSize(a - {x}, b - {x});
    }
  }

  /** A duplicate-free sequence over a finite universe is no longer than it. */
  lemma {:induction false} DistinctFits<T(!new)>(q: seq<T>, universe: set<T>)
    requires Distinct(q) && forall x :: x in q ==> x in universe
    ensures |q| <= |universe|
  {
    ElementsCount(q);
    SubsetSize(Elements(q), universe);
  }

  /** Distinct numbers below n, one of them missing: fewer than n. */
  lemma {:induction false} Pigeonhole(q: seq<nat>, n: nat, missing: nat)
    requires Distinct(q) && missing < n && missing !in q && forall x :: x in q ==> x < n
    ensures |q| < n
  {
    DistinctFits(q, Upto(n) - {missing});
  }
}
