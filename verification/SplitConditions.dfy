/**
 For which numbers decompose_64bit of src/math.c always finds a proper divisor, and for which
 the shift in its limit always stays an int. Both conditions are about the rounds that single
 draws of start and constant lead to, and can be decided before the call.
 */
module SplitConditions {
  import opened Arith
  import opened Decompose
  import opened Restart
  import opened Rho
  import Euclid
  import ModSquare

  /** Round i, if its two random numbers are rx for the start and rq for the constant. */
  function Draw(pq: u64, rx: u64, rq: u64, i: nat): (r: Round)
    requires pq >= 2
    ensures r.g > 0 && r.steps < Limit(i)
  {
    RoundOf(Start(rx, pq), Constant(rq, pq), pq, Limit(i))
  }

  /** The stream that gives the same draw to every round. */
  function Repeated(rx: u64, rq: u64): (rnd: Stream) {
    n => if n % 2 == 0 then rq else rx
  }

  /** The stream that gives three draws, the last one for ever. */
  function InTurn(rx: seq<u64>, rq: seq<u64>): (rnd: Stream)
    requires |rx| == |rq| == 3
  {
    n => var i := if n < 4 then n / 2 else 2; if n % 2 == 0 then rq[i] else rx[i]
  }

  lemma RepeatedDraws(pq: u64, rx: u64, rq: u64, i: nat)
    requires pq >= 2
    ensures RoundAt(pq, Repeated(rx, rq), i) == Draw(pq, rx, rq, i)
  {
    hide RoundOf, Start, Constant, Limit;
    assert (2 * i) % 2 == 0 && (2 * i + 1) % 2 == 1;
  }

  lemma DrawsInTurn(pq: u64, rx: seq<u64>, rq: seq<u64>, i: nat)
    requires pq >= 2 && |rx| == |rq| == 3 && i < 3
    ensures RoundAt(pq, InTurn(rx, rq), i) == Draw(pq, rx[i], rq[i], i)
  {
    hide RoundOf, Start, Constant, Limit;
    assert (2 * i) % 2 == 0 && (2 * i + 1) % 2 == 1;
    assert (2 * i) / 2 == i && (2 * i + 1) / 2 == i;
  }

  /** A draw that breaks in round i with room in round k breaks there in the same way. */
  lemma DrawKeeps(pq: u64, rx: u64, rq: u64, i: nat, k: nat)
    requires pq >= 2 && Draw(pq, rx, rq, i).g != 1 && Draw(pq, rx, rq, i).steps < Limit(k)
    ensures Draw(pq, rx, rq, k) == Draw(pq, rx, rq, i)
  {
    hide RoundOf, Start, Constant, Limit;
    RoundKeeps(Start(rx, pq), Constant(rq, pq), pq, Limit(i), Limit(k));
  }

  /** What can be said of any draw: its g divides pq, and g == 1 means that it ran to its limit. */
  lemma DrawEnds(pq: u64, rx: u64, rq: u64, i: nat)
    requires pq >= 2
    ensures var r := Draw(pq, rx, rq, i);
            1 <= r.g <= pq && pq % r.g == 0 && (r.g == 1 ==> r.steps == Limit(i) - 1)
  {
    hide RoundOf, Start, Constant, Limit, Test;
    var x, q := Start(rx, pq), Constant(rq, pq);
    RoundIsFirst(x, q, pq, Limit(i));
    TestDivides(x, q, pq, Draw(pq, rx, rq, i).steps);
  }

  // ---------------------------------------------------------------- always split

  /** Every draw of round i ends with a proper divisor. */
  ghost predicate SureRound(pq: u64, i: nat)
    requires pq >= 2
  {
    forall rx: u64, rq: u64 :: 1 < Draw(pq, rx, rq, i).g < pq
  }

  /** The answer splits pq, seen from the last round. */
  lemma SplitMeansProper(pq: u64, rnd: Stream)
    requires pq >= 2
    ensures var all := AllRounds(pq, rnd);
            Answer(pq, rnd).0 > 1 <==> 1 < all(FinalIndex(pq, all)).g < pq
  {
    hide RoundAt, Answer;
    AnswerIsFactoring(pq, rnd);
  }

  lemma SureRoundSplits(pq: u64, i: nat, rnd: Stream)
    requires pq >= 2 && i < 3 && SureRound(pq, i)
    ensures Answer(pq, rnd).0 > 1
    ensures |Run(pq, rnd)| <= i + 1
  {
    hide RoundOf, Start, Constant, Limit, Answer, Rounds;
    var all := AllRounds(pq, rnd);
    assert all(i) == RoundAt(pq, rnd, i) == Draw(pq, rnd(2 * i + 1), rnd(2 * i), i);
    EarlyProperRound(pq, all, i);
    SplitMeansProper(pq, rnd);
  }

  /** A draw of round 0 that ends with g == pq, repeated for ever, never splits. */
  lemma RepeatedWholeDraw(pq: u64, rx: u64, rq: u64)
    requires pq >= 2 && Draw(pq, rx, rq, 0).g == pq
    ensures Answer(pq, Repeated(rx, rq)).0 == 1
  {
    hide Draw, RoundAt, Limit, Answer;
    var rnd := Repeated(rx, rq);
    var all := AllRounds(pq, rnd);
    var i := FinalIndex(pq, all);
    assert all(i) == RoundAt(pq, rnd, i);
    RepeatedDraws(pq, rx, rq, i);
    LimitIsLarge(i);
    DrawKeeps(pq, rx, rq, 0, i);
    SplitMeansProper(pq, rnd);
    AnswerIsFactoring(pq, rnd);
  }

  /** Three draws without a proper divisor, the first of them a full round, never split. */
  lemma ThreeFailedDraws(pq: u64, rx: seq<u64>, rq: seq<u64>)
    requires pq >= 2 && |rx| == |rq| == 3
    requires Draw(pq, rx[0], rq[0], 0).g == 1
    requires forall i :: 0 <= i < 3 ==> !(1 < Draw(pq, rx[i], rq[i], i).g < pq)
    ensures Answer(pq, InTurn(rx, rq)).0 == 1
    ensures |Run(pq, InTurn(rx, rq))| == 3
  {
    hide Draw, RoundAt, Limit, Answer, Rounds;
    var rnd := InTurn(rx, rq);
    var all := AllRounds(pq, rnd);
    forall i: nat | i < 3 ensures all(i) == Draw(pq, rx[i], rq[i], i) {
      assert all(i) == RoundAt(pq, rnd, i);
      DrawsInTurn(pq, rx, rq, i);
    }
    DrawEnds(pq, rx[0], rq[0], 0);
    LimitIsLarge(0);
    FullFirstRound(pq, all);
    SplitMeansProper(pq, rnd);
    AnswerIsFactoring(pq, rnd);
  }

  lemma FailedDraw(pq: u64, i: nat) returns (rx: u64, rq: u64)
    requires pq >= 2 && !SureRound(pq, i)
    ensures !(1 < Draw(pq, rx, rq, i).g < pq)
  {
    hide Draw;
    rx, rq :| !(1 < Draw(pq, rx, rq, i).g < pq);
  }

  lemma UnsureIsMissed(pq: u64) returns (rnd: Stream)
    requires pq >= 2 && forall i: nat :: i < 3 ==> !SureRound(pq, i)
    ensures Answer(pq, rnd).0 == 1
  {
    hide Draw, Answer, SureRound;
    var x0, q0 := FailedDraw(pq, 0);
    DrawEnds(pq, x0, q0, 0);
    if Draw(pq, x0, q0, 0).g == pq {
      RepeatedWholeDraw(pq, x0, q0);
      rnd := Repeated(x0, q0);
    } else {
      var x1, q1 := FailedDraw(pq, 1);
      var x2, q2 := FailedDraw(pq, 2);
      ThreeFailedDraws(pq, [x0, x1, x2], [q0, q1, q2]);
      rnd := InTurn([x0, x1, x2], [q0, q1, q2]);
    }
  }

  /**
   When a number is always split: on every stream the answer is a proper factoring if and only
   if one of the first three rounds ends with a proper divisor for every draw.
   */
  lemma AlwaysSplit(pq: u64)
    requires pq >= 2
    ensures (forall rnd: Stream :: Answer(pq, rnd).0 > 1) <==> exists i: nat :: i < 3 && SureRound(pq, i)
  {
    hide SureRound, Answer;
    if i: nat :| i < 3 && SureRound(pq, i) {
      forall rnd: Stream ensures Answer(pq, rnd).0 > 1 {
        SureRoundSplits(pq, i, rnd);
      }
    } else {
      var rnd := UnsureIsMissed(pq);
      assert !(Answer(pq, rnd).0 > 1);
    }
  }

  /** One stream: it splits pq exactly when one of the rounds it makes ends with a proper divisor. */
  lemma SplitOnStream(pq: u64, rnd: Stream)
    requires pq >= 2
    ensures Answer(pq, rnd).0 > 1
            <==> exists k: nat :: k < |Run(pq, rnd)| && 1 < RoundAt(pq, rnd, k).g < pq
  {
    hide RoundAt, Answer, Rounds;
    var all := AllRounds(pq, rnd);
    SplitMeansProper(pq, rnd);
    SomeProperRound(pq, all);
    if k: nat :| k < |Run(pq, rnd)| && 1 < all(k).g < pq {
      assert 1 < RoundAt(pq, rnd, k).g < pq;
    }
    if k: nat :| k < |Run(pq, rnd)| && 1 < RoundAt(pq, rnd, k).g < pq {
      assert 1 < all(k).g < pq;
    }
  }

  // ---------------------------------------------------------------- in terms of the orbit

  /** The first meeting below the limit is one modulo a proper divisor, not modulo all of pq. */
  ghost predicate MeetsProperly(x: nat, q: nat, pq: nat, lim: nat)
    requires pq > 0
  {
    exists j: nat ::
      && 1 <= j < lim && Meets(x, q, pq, j) && (forall k :: 1 <= k < j ==> !Meets(x, q, pq, k))
      && Orbit(x, q, pq, j) != Orbit(x, q, pq, Anchor(j))
  }

  /** gcd(z, pq) is all of pq only for z == 0. */
  lemma WholeGcd(z: nat, pq: nat)
    requires z < pq
    ensures Euclid.Gcd(z, pq) == pq <==> z == 0
  {
    hide Euclid.Gcd;
    Euclid.GcdIsGreatest(z, pq);
    if z == 0 {
      ModOfMultiple(pq, 1);
      DivModUnique(0, pq, 0, 0);
    } else {
      DivisorBound(Euclid.Gcd(z, pq), z);
    }
  }

  lemma WholeTest(x: u64, q: u64, pq: u64, j: nat)
    requires x < pq && q < pq
    ensures Test(x, q, pq, j) == pq <==> Iterate(x, q, pq, j) == Iterate(x, q, pq, Anchor(j))
  {
    hide Euclid.Gcd, Iterate, Anchor;
    WholeGcd(Gap(Iterate(x, q, pq, j), Iterate(x, q, pq, Anchor(j)), pq), pq);
  }

  /** A round ends with a proper divisor exactly when its first meeting is proper. */
  lemma ProperIsMeeting(x: u64, q: u64, pq: u64, lim: nat)
    requires x < pq && q < pq && 2 <= pq <= TWO_63 && 2 <= lim
    ensures 1 < RoundOf(x, q, pq, lim).g < pq <==> MeetsProperly(x, q, pq, lim)
  {
    hide RoundOf, Test, Meets, Orbit, Iterate, Anchor;
    var r := RoundOf(x, q, pq, lim);
    RoundIsFirst(x, q, pq, lim);
    TestDivides(x, q, pq, r.steps);
    ProperAt(x, q, pq, r.steps);
    if r.g != 1 {
      StopsAtFirstMeeting(x, q, pq, lim, r.steps);
    }
    forall j: nat | 1 <= j < lim && Meets(x, q, pq, j) && forall k :: 1 <= k < j ==> !Meets(x, q, pq, k)
      ensures r.g != 1 && r.steps == j
    {
      StopsAtFirstMeeting(x, q, pq, lim, j);
    }
  }

  lemma ProperAt(x: u64, q: u64, pq: u64, j: nat)
    requires x < pq && q < pq && 2 <= pq <= TWO_63
    ensures Test(x, q, pq, j) == pq <==> Orbit(x, q, pq, j) == Orbit(x, q, pq, Anchor(j))
  {
    hide Test, Orbit, Iterate, Anchor;
    WholeTest(x, q, pq, j);
    IterateIsOrbit(x, q, pq, j);
    IterateIsOrbit(x, q, pq, Anchor(j));
  }

  /** Every orbit that a draw can start meets properly below the limit of round i. */
  ghost predicate SureOrbits(pq: u64, i: nat)
    requires pq >= 2
  {
    forall rx: u64, rq: u64 :: MeetsProperly(Start(rx, pq), Constant(rq, pq), pq, Limit(i))
  }

  lemma SureRoundByOrbits(pq: u64, i: nat)
    requires 2 <= pq <= TWO_63
    ensures SureRound(pq, i) <==> SureOrbits(pq, i)
  {
    hide RoundOf, Start, Constant, Limit, MeetsProperly;
    forall rx: u64, rq: u64
      ensures 1 < Draw(pq, rx, rq, i).g < pq
              <==> MeetsProperly(Start(rx, pq), Constant(rq, pq), pq, Limit(i))
    {
      ProperIsMeeting(Start(rx, pq), Constant(rq, pq), pq, Limit(i));
    }
  }

  /**
   The same condition without the code: up to 2^63 a number is always split if and only if, for
   one of the first three limits, every orbit the draws can start first meets its anchor modulo
   a divisor of pq greater than 1 at a step where the two are different modulo pq.
   */
  lemma AlwaysSplitByOrbits(pq: u64)
    requires 2 <= pq <= TWO_63
    ensures (forall rnd: Stream :: Answer(pq, rnd).0 > 1) <==> exists i: nat :: i < 3 && SureOrbits(pq, i)
  {
    hide SureRound, SureOrbits, Answer;
    AlwaysSplit(pq);
    forall i: nat ensures SureRound(pq, i) <==> SureOrbits(pq, i) {
      SureRoundByOrbits(pq, i);
    }
  }

  // ---------------------------------------------------------------- the shift

  /** A draw of round 0 that goes round the whole cycle of pq in at most 76 steps. */
  ghost predicate ShortWholeDraw(pq: u64, rx: u64, rq: u64)
    requires pq >= 2
  {
    Draw(pq, rx, rq, 0).g == pq && Draw(pq, rx, rq, 0).steps <= 76
  }

  lemma ShortDrawOvershifts(pq: u64, rx: u64, rq: u64)
    requires pq >= 2 && ShortWholeDraw(pq, rx, rq)
    ensures |Run(pq, Repeated(rx, rq))| > 13
  {
    hide Draw, RoundAt, Limit, Rounds;
    var rnd := Repeated(rx, rq);
    var all := AllRounds(pq, rnd);
    forall i: nat ensures all(i).steps <= 76 && !(1 < all(i).g < pq) {
      assert all(i) == RoundAt(pq, rnd, i);
      RepeatedDraws(pq, rx, rq, i);
      LimitIsLarge(i);
      DrawKeeps(pq, rx, rq, 0, i);
    }
    ShortRounds(pq, all);
  }

  lemma OvershiftHasShortDraw(pq: u64, rnd: Stream) returns (rx: u64, rq: u64)
    requires pq >= 2 && |Run(pq, rnd)| > 13
    ensures ShortWholeDraw(pq, rx, rq)
  {
    hide RoundOf, Start, Constant, Limit, Rounds;
    var all := AllRounds(pq, rnd);
    var k := ManyRounds(pq, all);
    rx, rq := rnd(2 * k + 1), rnd(2 * k);
    assert all(k) == RoundAt(pq, rnd, k) == Draw(pq, rx, rq, k);
    DrawEnds(pq, rx, rq, k);
    LimitIsLarge(k);
    DrawKeeps(pq, rx, rq, k, 0);
  }

  /**
   When the shift is always defined: on every stream the loop keeps to the rounds i <= 12, for
   which 1 << (i + 18) is an int, if and only if no draw of round 0 ends within 76 steps with
   g == pq.
   */
  lemma ShiftAlwaysDefined(pq: u64)
    requires pq >= 2
    ensures (forall rnd: Stream :: |Run(pq, rnd)| <= 13)
            <==> !exists rx: u64, rq: u64 :: Draw(pq, rx, rq, 0).g == pq && Draw(pq, rx, rq, 0).steps <= 76
  {
    hide Draw, Run;
    if rx: u64, rq: u64 :| Draw(pq, rx, rq, 0).g == pq && Draw(pq, rx, rq, 0).steps <= 76 {
      ShortDrawOvershifts(pq, rx, rq);
      assert |Run(pq, Repeated(rx, rq))| > 13;
    } else {
      forall rnd: Stream ensures |Run(pq, rnd)| <= 13 {
        if |Run(pq, rnd)| > 13 {
          var rx, rq := OvershiftHasShortDraw(pq, rnd);
          assert false;
        }
      }
    }
  }

  /**
   When the shift is never kept: on every stream the loop reaches i = 13 if and only if every draw
   of round 0 ends within 76 steps with g == pq.
   */
  lemma ShiftNeverDefined(pq: u64)
    requires pq >= 2
    ensures (forall rnd: Stream :: |Run(pq, rnd)| > 13)
            <==> forall rx: u64, rq: u64 :: Draw(pq, rx, rq, 0).g == pq && Draw(pq, rx, rq, 0).steps <= 76
  {
    hide Draw, Run;
    if rx: u64, rq: u64 :| !(Draw(pq, rx, rq, 0).g == pq && Draw(pq, rx, rq, 0).steps <= 76) {
      var rnd := KeptInRange(pq, rx, rq);
      assert !(|Run(pq, rnd)| > 13);
    } else {
      forall rnd: Stream ensures |Run(pq, rnd)| > 13 {
        AllShortOvershift(pq, rnd);
      }
    }
  }

  lemma AllShortOvershift(pq: u64, rnd: Stream)
    requires pq >= 2
    requires forall rx: u64, rq: u64 :: Draw(pq, rx, rq, 0).g == pq && Draw(pq, rx, rq, 0).steps <= 76
    ensures |Run(pq, rnd)| > 13
  {
    hide RoundOf, Start, Constant, Limit, Rounds;
    var all := AllRounds(pq, rnd);
    forall i: nat ensures all(i).steps <= 76 && !(1 < all(i).g < pq) {
      var rx, rq := rnd(2 * i + 1), rnd(2 * i);
      assert all(i) == RoundAt(pq, rnd, i) == Draw(pq, rx, rq, i);
      LimitIsLarge(i);
      DrawKeeps(pq, rx, rq, 0, i);
    }
    ShortRounds(pq, all);
  }

  /** A draw that is not short and whole, given to every round, keeps the loop in range. */
  lemma KeptInRange(pq: u64, rx: u64, rq: u64) returns (rnd: Stream)
    requires pq >= 2 && !(Draw(pq, rx, rq, 0).g == pq && Draw(pq, rx, rq, 0).steps <= 76)
    ensures |Run(pq, rnd)| <= 13
  {
    hide Draw, RoundAt, Limit, Rounds;
    rnd := Repeated(rx, rq);
    var all := AllRounds(pq, rnd);
    forall i: nat ensures all(i) == Draw(pq, rx, rq, i) {
      assert all(i) == RoundAt(pq, rnd, i);
      RepeatedDraws(pq, rx, rq, i);
    }
    DrawEnds(pq, rx, rq, 0);
    if 1 < Draw(pq, rx, rq, 0).g < pq {
      EarlyProperRound(pq, all, 0);
    } else {
      forall i: nat ensures all(i).steps >= 77 {
        LongDraw(pq, rx, rq, i);
      }
      LongRounds(pq, all);
    }
  }

  /** A draw that takes at least 77 steps in round 0, or runs to its limit there, does so in every round. */
  lemma LongDraw(pq: u64, rx: u64, rq: u64, i: nat)
    requires pq >= 2 && (Draw(pq, rx, rq, 0).g == 1 || Draw(pq, rx, rq, 0).steps >= 77)
    ensures Draw(pq, rx, rq, i).steps >= 77
  {
    hide Draw, Limit;
    LimitIsLarge(i);
    DrawEnds(pq, rx, rq, 0);
    DrawEnds(pq, rx, rq, i);
    if Draw(pq, rx, rq, 0).g != 1 {
      DrawKeeps(pq, rx, rq, 0, i);
    } else if Draw(pq, rx, rq, i).g != 1 && Draw(pq, rx, rq, i).steps < 77 {
      DrawKeeps(pq, rx, rq, i, 0);
      assert false;
    }
  }

  // ---------------------------------------------------------------- missed with every shift defined

  /** A draw that fails in round 0 after at least 77 steps. */
  ghost predicate LongFailedDraw(pq: u64, rx: u64, rq: u64)
    requires pq >= 2
  {
    !(1 < Draw(pq, rx, rq, 0).g < pq) && Draw(pq, rx, rq, 0).steps >= 77
  }

  lemma MissedInRangeHasLongDraw(pq: u64, rnd: Stream) returns (rx: u64, rq: u64)
    requires pq >= 2 && |Run(pq, rnd)| <= 13 && Answer(pq, rnd).0 == 1
    ensures LongFailedDraw(pq, rx, rq)
    ensures forall i: nat :: i < 3 ==> !SureRound(pq, i)
  {
    hide RoundOf, Start, Constant, Limit, Rounds, Answer;
    var all := AllRounds(pq, rnd);
    SplitMeansProper(pq, rnd);
    var k := FewRounds(pq, all);
    rx, rq := rnd(2 * k + 1), rnd(2 * k);
    assert all(k) == RoundAt(pq, rnd, k) == Draw(pq, rx, rq, k);
    DrawEnds(pq, rx, rq, 0);
    LimitIsLarge(k);
    if Draw(pq, rx, rq, 0).g != 1 {
      DrawKeeps(pq, rx, rq, 0, k);
    }
    forall i: nat | i < 3 ensures !SureRound(pq, i) {
      assert all(i) == RoundAt(pq, rnd, i) == Draw(pq, rnd(2 * i + 1), rnd(2 * i), i);
    }
  }

  lemma LongDrawMissesInRange(pq: u64, rx: u64, rq: u64) returns (rnd: Stream)
    requires pq >= 2 && LongFailedDraw(pq, rx, rq) && forall i: nat :: i < 3 ==> !SureRound(pq, i)
    ensures |Run(pq, rnd)| <= 13 && Answer(pq, rnd).0 == 1
  {
    hide Draw, Run, Answer, SureRound;
    DrawEnds(pq, rx, rq, 0);
    if Draw(pq, rx, rq, 0).g == pq {
      RepeatedWholeDraw(pq, rx, rq);
      RepeatedLongDraw(pq, rx, rq);
      rnd := Repeated(rx, rq);
    } else {
      var x1, q1 := FailedDraw(pq, 1);
      var x2, q2 := FailedDraw(pq, 2);
      ThreeFailedDraws(pq, [rx, x1, x2], [rq, q1, q2]);
      rnd := InTurn([rx, x1, x2], [rq, q1, q2]);
    }
  }

  lemma RepeatedLongDraw(pq: u64, rx: u64, rq: u64)
    requires pq >= 2 && Draw(pq, rx, rq, 0).steps >= 77
    ensures |Run(pq, Repeated(rx, rq))| <= 13
  {
    hide Draw, RoundAt, Limit, Rounds;
    var rnd := Repeated(rx, rq);
    var all := AllRounds(pq, rnd);
    forall i: nat ensures all(i).steps >= 77 {
      assert all(i) == RoundAt(pq, rnd, i);
      RepeatedDraws(pq, rx, rq, i);
      LongDraw(pq, rx, rq, i);
    }
    LongRounds(pq, all);
  }

  /**
   When a number can be missed with every shift defined: some stream leaves it unsplit within the
   rounds i <= 12 if and only if none of the first three rounds is sure and some draw of round 0
   fails after at least 77 steps.
   */
  lemma MissedInRange(pq: u64)
    requires pq >= 2
    ensures (exists rnd: Stream :: |Run(pq, rnd)| <= 13 && Answer(pq, rnd).0 == 1)
            <==> (forall i: nat :: i < 3 ==> !SureRound(pq, i))
                 && exists rx: u64, rq: u64 :: LongFailedDraw(pq, rx, rq)
  {
    hide Run, Answer, SureRound, LongFailedDraw;
    if rnd: Stream :| |Run(pq, rnd)| <= 13 && Answer(pq, rnd).0 == 1 {
      var rx, rq := MissedInRangeHasLongDraw(pq, rnd);
    }
    if (forall i: nat :: i < 3 ==> !SureRound(pq, i)) && exists rx: u64, rq: u64 :: LongFailedDraw(pq, rx, rq) {
      var rx: u64, rq: u64 :| LongFailedDraw(pq, rx, rq);
      var rnd := LongDrawMissesInRange(pq, rx, rq);
    }
  }

  // ---------------------------------------------------------------- no small number is safe

  /** Some number from 17 to 32 is a multiple of pq. */
  lemma MultipleInRange(pq: nat) returns (c: nat)
    requires 2 <= pq <= 32
    ensures 17 <= c <= 32 && c % pq == 0
  {
    var k, m := 32 / pq, 32 % pq;
    c := pq * k;
    assert c == 32 - m;
    ModOfMultiple(pq, k);
    if pq > 16 {
      DivModUnique(32, pq, 1, 32 - pq);
    }
  }

  lemma ConstantFrom(r: u64, pq: u64)
    requires pq >= 2 && r < 16
    ensures Constant(r, pq) == (r + 17) % pq
  {
    hide And;
    AndFifteen(r);
  }

  /** Up to 32, some constant is a multiple of pq, and then 1 is its own square. */
  lemma SmallFixedPoint(pq: u64) returns (rx: u64, rq: u64)
    requires 2 <= pq <= 32
    ensures Draw(pq, rx, rq, 0) == Round(pq, 1)
  {
    hide RoundOf, Constant, Limit;
    var c := MultipleInRange(pq);
    rx, rq := 0, c - 17;
    ConstantFrom(rq, pq);
    DivModUnique(0, pq - 1, 0, 0);
    SquareOfOne(pq);
    FixedPoint(1, 0, pq, Limit(0));
  }

  lemma SquareOfOne(pq: u64)
    requires 2 <= pq <= 32
    ensures ModSquare.Accumulate(1, 1, 0, pq) == 1
  {
    ModSquare.AccumulateIsExact(1, 1, 0, pq);
    DivModUnique(1, pq, 0, 1);
  }

  /** So every number up to 32 has a stream that does not split it and that drives the shift too far. */
  lemma SmallIsNeverSafe(pq: u64)
    requires 2 <= pq <= 32
    ensures exists rnd: Stream :: Answer(pq, rnd).0 == 1 && |Run(pq, rnd)| > 13
  {
    hide Draw, Answer, Run;
    var rx, rq := SmallFixedPoint(pq);
    RepeatedWholeDraw(pq, rx, rq);
    ShortDrawOvershifts(pq, rx, rq);
    assert Answer(pq, Repeated(rx, rq)).0 == 1;
  }
}
