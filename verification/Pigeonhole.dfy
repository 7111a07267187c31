/** Finite sequences with more entries than values. */
module Pigeonhole {

  ghost function Below(m: nat): (s: set<nat>)
    ensures forall n: nat :: n in s <==> n < m
    ensures |s| == m
  {
    if m == 0 then {} else Below(m - 1) + {m - 1}
  }

  ghost function Entries(s: seq<nat>): (r: set<nat>)
    ensures forall n: nat :: n in r <==> n in s
  {
    if s == [] then {} else Entries(s[..|s| - 1]) + {s[|s| - 1]}
  }

  lemma {:induction false} DistinctEntries(s: seq<nat>)
    requires forall i, j :: 0 <= i < j < |s| ==> s[i] != s[j]
    ensures |Entries(s)| == |s|
  {
    if s == [] {
    } else {
      DistinctEntries(s[..|s| - 1]);
      assert s[|s| - 1] !in s[..|s| - 1];
    }
  }

  lemma SubsetIsSmaller(a: set<nat>, b: set<nat>)
    requires a <= b
    ensures |a| <= |b|
  {
    assert b == a + (b - a);
  }

  /** More than m numbers below m contain a repetition. */
  lemma Repetition(s: seq<nat>, m: nat) returns (i: nat, j: nat)
    requires |s| > m
    requires forall k :: 0 <= k < |s| ==> s[k] < m
    ensures i < j < |s| && s[i] == s[j]
  {
    if forall a, b :: 0 <= a < b < |s| ==> s[a] != s[b] {
      DistinctEntries(s);
      SubsetIsSmaller(Entries(s), Below(m));
      assert false;
    }
    i, j :| i < j < |s| && s[i] == s[j];
  }
}
