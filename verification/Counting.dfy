/** Counting facts shared by the index and the arena. */
module Counting {

  ghost predicate Distinct(s: seq<nat>) {
    forall i, j | 0 <= i < j < |s| :: s[i] != s[j]
  }

  /** Distinct members of a set are no more than the set has. */
  lemma {:induction false} DistinctBound(keys: seq<nat>, s: set<nat>)
    requires Distinct(keys) && forall i | 0 <= i < |keys| :: keys[i] in s
    ensures |keys| <= |s|
  {
    if keys != [] {
      DistinctBound(keys[1..], s - {keys[0]});
    }
  }

  function Below(n: nat): (s: set<nat>)
    ensures |s| == n && forall i: nat :: i in s <==> i < n
  {
    if n == 0 then {} else Below(n - 1) + {n - 1}
  }

  /** A member of a sequence without repetitions is counted once. */
  lemma {:induction false} CountedOnce(s: seq<nat>, x: nat)
    requires Distinct(s)
    ensures multiset(s)[x] == if x in s then 1 else 0
  {
    if s != [] {
      CountedOnce(s[1..], x);
      assert s == [s[0]] + s[1..];
    }
  }

  /** from, from + 1, ..., n - 1. */
  function Ascending(n: nat, from: nat): (s: seq<nat>)
    requires from <= n
    ensures |s| == n - from && forall i | 0 <= i < |s| :: s[i] == from + i
    ensures forall i: nat :: i in s <==> from <= i < n
    decreases n - from
  {
    if from == n then [] else [from] + Ascending(n, from + 1)
  }
}
