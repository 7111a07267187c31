/**
 The outer loop of decompose_64bit in src/math.c, over the outcomes of its rounds: rounds of
 growing limit go on until one finds a proper divisor, or three rounds and a thousand steps
 have been spent. What a round computes is left open here.
 */
module Restart {
  import opened Arith

  type Count = n: nat | n >= 1 witness 1

  /** How a round ends: the last g and the number of steps taken. */
  datatype Round = Round(g: nat, steps: Count)

  /** Round i, for every i. */
  type Outcomes = nat -> Round

  /** lim = 1 << (i + 18), as a mathematical power. */
  function Limit(i: nat): (lim: nat)
    ensures lim >= 2
  {
    assert Pow2(i + 18) == 2 * Pow2(i + 17);
    Pow2(i + 18)
  }

  /** The rounds still to come when i rounds and iter steps are behind. */
  function Rounds(pq: nat, round: Outcomes, i: nat, iter: nat): (rs: seq<Round>)
    decreases (if i < 3 then 3 - i else 0) + (if iter < 1000 then 1000 - iter else 0)
  {
    if i < 3 || iter < 1000 then
      if 1 < round(i).g < pq then [round(i)]
      else [round(i)] + Rounds(pq, round, i + 1, iter + round(i).steps)
    else
      []
  }

  /** The value of g when the loop ends, from any i, iter and g. */
  function LastG(pq: nat, round: Outcomes, i: nat, iter: nat, g: nat): (r: nat)
    decreases (if i < 3 then 3 - i else 0) + (if iter < 1000 then 1000 - iter else 0)
  {
    if i < 3 || iter < 1000 then
      if 1 < round(i).g < pq then round(i).g
      else LastG(pq, round, i + 1, iter + round(i).steps, round(i).g)
    else
      g
  }

  lemma {:induction false} LastGIsLast(pq: nat, round: Outcomes, i: nat, iter: nat, g: nat)
    ensures var rs := Rounds(pq, round, i, iter);
            LastG(pq, round, i, iter, g) == if rs == [] then g else rs[|rs| - 1].g
    decreases (if i < 3 then 3 - i else 0) + (if iter < 1000 then 1000 - iter else 0)
  {
    if (i < 3 || iter < 1000) && !(1 < round(i).g < pq) {
      LastGIsLast(pq, round, i + 1, iter + round(i).steps, round(i).g);
    }
  }

  function TotalSteps(rs: seq<Round>): (n: nat)
    ensures n >= if rs == [] then 0 else rs[|rs| - 1].steps
  {
    if rs == [] then 0 else TotalSteps(rs[..|rs| - 1]) + rs[|rs| - 1].steps
  }

  lemma {:induction false} TotalStepsCons(r: Round, rs: seq<Round>)
    ensures TotalSteps([r] + rs) == r.steps + TotalSteps(rs)
  {
    if rs == [] {
      assert ([r] + rs)[..0] == [];
    } else {
      TotalStepsCons(r, rs[..|rs| - 1]);
      assert ([r] + rs)[..|rs|] == [r] + rs[..|rs| - 1];
    }
  }

  /** What the outer loop guarantees of the rounds rs it makes from i and iter. */
  ghost predicate IsRun(pq: nat, round: Outcomes, i: nat, iter: nat, rs: seq<Round>)
  {
    && (forall k :: 0 <= k < |rs| ==> rs[k] == round(i + k))
    && (forall k :: 0 <= k < |rs| ==> i + k < 3 || iter + TotalSteps(rs[..k]) < 1000)
    && (forall k :: 0 <= k < |rs| - 1 ==> !(1 < rs[k].g < pq))
    && ((rs != [] && 1 < rs[|rs| - 1].g < pq) || (i + |rs| >= 3 && iter + TotalSteps(rs) >= 1000))
  }

  lemma RunExtends(pq: nat, round: Outcomes, i: nat, iter: nat, rest: seq<Round>)
    requires i < 3 || iter < 1000
    requires !(1 < round(i).g < pq)
    requires IsRun(pq, round, i + 1, iter + round(i).steps, rest)
    ensures IsRun(pq, round, i, iter, [round(i)] + rest)
  {
    var r := round(i);
    var rs := [r] + rest;
    forall k | 0 <= k < |rs|
      ensures rs[k] == round(i + k)
      ensures i + k < 3 || iter + TotalSteps(rs[..k]) < 1000
      ensures k < |rs| - 1 ==> !(1 < rs[k].g < pq)
    {
      if k > 0 {
        assert rs[k] == rest[k - 1];
        assert rs[..k] == [r] + rest[..k - 1];
        TotalStepsCons(r, rest[..k - 1]);
      }
    }
    TotalStepsCons(r, rest);
    assert rest != [] ==> rs[|rs| - 1] == rest[|rest| - 1];
  }

  lemma {:induction false} RoundsAreRun(pq: nat, round: Outcomes, i: nat, iter: nat)
    ensures IsRun(pq, round, i, iter, Rounds(pq, round, i, iter))
    decreases (if i < 3 then 3 - i else 0) + (if iter < 1000 then 1000 - iter else 0)
  {
    if i < 3 || iter < 1000 {
      if 1 < round(i).g < pq {
        assert Rounds(pq, round, i, iter) == [round(i)];
      } else {
        RoundsAreRun(pq, round, i + 1, iter + round(i).steps);
        RunExtends(pq, round, i, iter, Rounds(pq, round, i + 1, iter + round(i).steps));
      }
    }
  }

  // ---------------------------------------------------------------- how long a run is

  lemma {:induction false} StepsAtLeastRounds(rs: seq<Round>)
    ensures TotalSteps(rs) >= |rs|
  {
    if rs == [] {
    } else {
      StepsAtLeastRounds(rs[..|rs| - 1]);
    }
  }

  lemma {:induction false} StepsIncludeRound(rs: seq<Round>, k: nat)
    requires k < |rs|
    ensures TotalSteps(rs) >= rs[k].steps
  {
    if k < |rs| - 1 {
      StepsIncludeRound(rs[..|rs| - 1], k);
    }
  }

  /** There are between 1 and 1000 rounds, whatever the stream. */
  lemma RunLength(pq: nat, round: Outcomes)
    ensures 1 <= |Rounds(pq, round, 0, 0)| <= 1000
  {
    var rs := Rounds(pq, round, 0, 0);
    RoundsAreRun(pq, round, 0, 0);
    if |rs| > 1000 {
      StepsAtLeastRounds(rs[..1000]);
      assert false;
    }
  }

  /** The index of the round that ends the loop: without a proper divisor, at least the third. */
  ghost function FinalIndex(pq: nat, round: Outcomes): (i: nat)
    ensures !(1 < round(i).g < pq) ==> i >= 2
    ensures i == |Rounds(pq, round, 0, 0)| - 1 && Rounds(pq, round, 0, 0)[i] == round(i)
  {
    RunLength(pq, round);
    RoundsAreRun(pq, round, 0, 0);
    |Rounds(pq, round, 0, 0)| - 1
  }

  /** A round that runs to its limit is followed only by rounds with i < 3. */
  lemma FullRoundIsLate(pq: nat, round: Outcomes, k: nat)
    requires k < |Rounds(pq, round, 0, 0)|
    requires Rounds(pq, round, 0, 0)[k].steps == Limit(k) - 1
    ensures |Rounds(pq, round, 0, 0)| <= 3 || |Rounds(pq, round, 0, 0)| == k + 1
  {
    var rs := Rounds(pq, round, 0, 0);
    RoundsAreRun(pq, round, 0, 0);
    if |rs| > 3 && |rs| > k + 1 {
      var last := |rs| - 1;
      StepsIncludeRound(rs[..last], k);
      LimitIsLarge(k);
      assert false;
    }
  }

  /** The steps of the first n rounds, against the sum of their limits. */
  lemma {:induction false} StepsBelowLimits(rs: seq<Round>, n: nat)
    requires n <= |rs|
    requires forall k :: 0 <= k < |rs| ==> rs[k].steps < Limit(k)
    ensures TotalSteps(rs[..n]) + n <= Limit(n) - Limit(0)
  {
    if n == 0 {
    } else {
      StepsBelowLimits(rs, n - 1);
      assert rs[..n][..n - 1] == rs[..n - 1];
      assert Limit(n) == 2 * Limit(n - 1);
    }
  }

  /** The limits of the rounds with i <= 12 are ints, and the next one is just out of range. */
  lemma LimitFits(n: nat)
    requires n <= 13
    ensures Limit(n) <= TWO_31
    ensures n < 13 ==> Limit(n) < TWO_31
  {
    Pow2Values();
    assert Pow2(31) == 2 * Pow2(30);
    Pow2Monotonic(n + 18, if n < 13 then 30 else 31);
  }

  /** Every limit leaves room for far more than the thousand steps of the guard. */
  lemma LimitIsLarge(i: nat)
    ensures Limit(0) == 0x4_0000 <= Limit(i)
  {
    Pow2Values();
    Pow2Monotonic(18, i + 18);
  }

  /** Through the rounds with i <= 12, the int variables iter, lim and j stay below 2^31. */
  lemma IntCountersFit(pq: nat, round: Outcomes, n: nat)
    requires n <= |Rounds(pq, round, 0, 0)| && n <= 13
    requires forall i: nat :: round(i).steps < Limit(i)
    ensures TotalSteps(Rounds(pq, round, 0, 0)[..n]) < TWO_31
    ensures forall i: nat :: i < n ==> Limit(i) < TWO_31
  {
    hide Rounds, TotalSteps, Pow2, Limit;
    var rs := Rounds(pq, round, 0, 0);
    assert forall k :: 0 <= k < |rs| ==> rs[k] == round(k) by {
      RoundsAreRun(pq, round, 0, 0);
    }
    StepsBelowLimits(rs, n);
    LimitFits(n);
    forall i: nat | i < n ensures Limit(i) < TWO_31 {
      LimitFits(i);
    }
  }

  lemma {:induction false} OneStepEach(rs: seq<Round>)
    requires forall k :: 0 <= k < |rs| ==> rs[k].steps == 1
    ensures TotalSteps(rs) == |rs|
  {
    if rs == [] {
    } else {
      OneStepEach(rs[..|rs| - 1]);
    }
  }

  lemma {:induction false} StepsAtMost(rs: seq<Round>, m: nat)
    requires forall k :: 0 <= k < |rs| ==> rs[k].steps <= m
    ensures TotalSteps(rs) <= |rs| * m
  {
    if rs == [] {
    } else {
      StepsAtMost(rs[..|rs| - 1], m);
      assert |rs| * m == (|rs| - 1) * m + m;
    }
  }

  lemma {:induction false} StepsAtLeast(rs: seq<Round>, m: nat)
    requires forall k :: 0 <= k < |rs| ==> rs[k].steps >= m
    ensures TotalSteps(rs) >= |rs| * m
  {
    if rs == [] {
    } else {
      StepsAtLeast(rs[..|rs| - 1], m);
      assert |rs| * m == (|rs| - 1) * m + m;
    }
  }

  // ---------------------------------------------------------------- which outcomes end how

  /** Some round the loop is sure to reach finds a proper divisor: then the last one did, by then. */
  lemma EarlyProperRound(pq: nat, round: Outcomes, i: nat)
    requires i < 3 && 1 < round(i).g < pq
    ensures 1 < round(FinalIndex(pq, round)).g < pq
    ensures |Rounds(pq, round, 0, 0)| <= i + 1
  {
    hide Rounds, TotalSteps;
    RoundsAreRun(pq, round, 0, 0);
    var rs := Rounds(pq, round, 0, 0);
    var last := FinalIndex(pq, round);
    assert i < |rs| ==> rs[i] == round(i);
  }

  /** A full first round and two more without a proper divisor end the loop. */
  lemma FullFirstRound(pq: nat, round: Outcomes)
    requires round(0).steps >= 1000
    requires forall i: nat :: i < 3 ==> !(1 < round(i).g < pq)
    ensures FinalIndex(pq, round) == 2
  {
    hide Rounds, TotalSteps;
    RoundsAreRun(pq, round, 0, 0);
    var rs := Rounds(pq, round, 0, 0);
    var last := FinalIndex(pq, round);
    assert rs[last] == round(last);
    if last > 2 {
      StepsIncludeRound(rs[..3], 0);
      assert false;
    }
  }

  /** More than 13 rounds mean a round of at most 76 steps that was not the last. */
  lemma ManyRounds(pq: nat, round: Outcomes) returns (k: nat)
    requires |Rounds(pq, round, 0, 0)| > 13
    ensures round(k).steps <= 76 && !(1 < round(k).g < pq)
  {
    hide Rounds, TotalSteps;
    RoundsAreRun(pq, round, 0, 0);
    var rs := Rounds(pq, round, 0, 0);
    var front := rs[..13];
    if forall i :: 0 <= i < |front| ==> front[i].steps >= 77 {
      StepsAtLeast(front, 77);
      assert false;
    }
    k :| 0 <= k < |front| && front[k].steps < 77;
    assert rs[k] == round(k);
  }

  /** Rounds of at most 76 steps that find nothing make more than 13 rounds. */
  lemma ShortRounds(pq: nat, round: Outcomes)
    requires forall i: nat :: round(i).steps <= 76 && !(1 < round(i).g < pq)
    ensures |Rounds(pq, round, 0, 0)| > 13
  {
    hide Rounds, TotalSteps;
    RoundsAreRun(pq, round, 0, 0);
    RunLength(pq, round);
    var rs := Rounds(pq, round, 0, 0);
    assert rs[|rs| - 1] == round(|rs| - 1);
    StepsAtMost(rs, 76);
  }

  /** At most 13 rounds without a proper divisor include one of at least 77 steps. */
  lemma FewRounds(pq: nat, round: Outcomes) returns (k: nat)
    requires |Rounds(pq, round, 0, 0)| <= 13 && !(1 < round(FinalIndex(pq, round)).g < pq)
    ensures round(k).steps >= 77 && !(1 < round(k).g < pq)
    ensures forall i: nat :: i < 3 ==> !(1 < round(i).g < pq)
  {
    hide Rounds, TotalSteps;
    RoundsAreRun(pq, round, 0, 0);
    RunLength(pq, round);
    var rs := Rounds(pq, round, 0, 0);
    assert FinalIndex(pq, round) == |rs| - 1;
    if forall i :: 0 <= i < |rs| ==> rs[i].steps <= 76 {
      StepsAtMost(rs, 76);
      assert false;
    }
    k :| 0 <= k < |rs| && rs[k].steps > 76;
    assert rs[k] == round(k);
    forall i: nat | i < 3 ensures !(1 < round(i).g < pq) {
      assert rs[i] == round(i);
    }
  }

  /** Rounds of at least 77 steps are at most 13. */
  lemma LongRounds(pq: nat, round: Outcomes)
    requires forall i: nat :: round(i).steps >= 77
    ensures |Rounds(pq, round, 0, 0)| <= 13
  {
    hide Rounds, TotalSteps;
    RoundsAreRun(pq, round, 0, 0);
    var rs := Rounds(pq, round, 0, 0);
    if |rs| > 13 {
      StepsAtLeast(rs[..13], 77);
      assert false;
    }
  }

  /** The loop ends with a proper divisor exactly when one of its rounds finds one. */
  lemma SomeProperRound(pq: nat, round: Outcomes)
    ensures 1 < round(FinalIndex(pq, round)).g < pq
            <==> exists k: nat :: k < |Rounds(pq, round, 0, 0)| && 1 < round(k).g < pq
  {
    hide Rounds, TotalSteps;
    RoundsAreRun(pq, round, 0, 0);
    var rs := Rounds(pq, round, 0, 0);
    var last := FinalIndex(pq, round);
    if k: nat :| k < |rs| && 1 < round(k).g < pq {
      assert rs[k] == round(k);
    }
  }
}
