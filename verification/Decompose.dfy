/**
 decompose_64bit and math_test of src/math.c: randomised rounds of growing limit until one
 finds a proper divisor, or three rounds and a thousand steps have been spent. The random
 numbers are an arbitrary stream; round i takes the numbers 2i and 2i + 1 of it.
 */
module Decompose {
  import opened Arith
  import opened ModSquare
  import opened Restart
  import opened Rho
  import opened SearchLaw

  type Stream = nat -> u64

  /** q = ((rand() & 15) + 17) % pq */
  function Constant(r: u64, pq: u64): (q: u64)
    requires pq >= 2
    ensures q < pq
  {
    AndFifteen(r);
    (And(r, 15) + 17) % pq
  }

  /** x = rand() % (pq - 1) + 1 */
  function Start(r: u64, pq: u64): (x: u64)
    requires pq >= 2
    ensures 1 <= x < pq
  {
    r % (pq - 1) + 1
  }

  /**
   The constant is, modulo pq, one of the numbers 17 to 32: the one that differs from 17 by a
   number congruent to r modulo 16. Each of the 16 is drawn.
   */
  lemma ConstantIsDrawn(r: u64, pq: u64, c: nat)
    requires pq >= 2 && 17 <= c <= 32
    ensures r % 16 == (c - 17) % 16 ==> Constant(r, pq) == c % pq
    ensures Constant(c - 17, pq) == c % pq
  {
    hide And;
    AndFifteen(r);
    AndFifteen(c - 17);
  }

  /**
   The start is the number from 1 to pq - 1 that differs from 1 by a number congruent to r modulo
   pq - 1; so congruent numbers give the same start, and every start is drawn.
   */
  lemma StartIsDrawn(r: u64, pq: u64, x: u64)
    requires pq >= 2 && 1 <= x < pq
    ensures r % (pq - 1) == (x - 1) % (pq - 1) <==> Start(r, pq) == x
    ensures Start(x - 1, pq) == x
  {
    DivModUnique(x - 1, pq - 1, 0, x - 1);
  }

  function RoundAt(pq: u64, rnd: Stream, i: nat): (r: Round)
    requires pq >= 2
    ensures r.steps < Limit(i)
  {
    RoundOf(Start(rnd(2 * i + 1), pq), Constant(rnd(2 * i), pq), pq, Limit(i))
  }

  /** The outcomes of all rounds that the stream could pay for. */
  function AllRounds(pq: u64, rnd: Stream): (f: Outcomes)
    requires pq >= 2
    ensures forall i: nat :: f(i).steps < Limit(i)
  {
    (i: nat) => RoundAt(pq, rnd, i)
  }

  /** The rounds that a call makes. */
  function Run(pq: u64, rnd: Stream): (rs: seq<Round>)
    requires pq >= 2
  {
    Rounds(pq, AllRounds(pq, rnd), 0, 0)
  }

  /**
   How long a call can be, for every stream: 1 to 1000 rounds; after a round that ran to its
   limit only rounds with i < 3; and through the rounds with i <= 12, for which the shift in
   lim is defined in C, the int counter iter stays below 2^31.
   */
  lemma RunBounds(pq: u64, rnd: Stream, k: nat)
    requires pq >= 2
    ensures 1 <= |Run(pq, rnd)| <= 1000
    ensures k < |Run(pq, rnd)| && Run(pq, rnd)[k].steps == Limit(k) - 1 ==>
              |Run(pq, rnd)| <= 3 || |Run(pq, rnd)| == k + 1
    ensures k <= |Run(pq, rnd)| && k <= 13 ==> TotalSteps(Run(pq, rnd)[..k]) < TWO_31
    ensures k <= 12 ==> Limit(k) < TWO_31
  {
    hide Limit, Rounds, TotalSteps, RoundAt;
    var all := AllRounds(pq, rnd);
    RunLength(pq, all);
    if k < |Run(pq, rnd)| && Run(pq, rnd)[k].steps == Limit(k) - 1 {
      FullRoundIsLate(pq, all, k);
    }
    if k <= |Run(pq, rnd)| && k <= 13 {
      IntCountersFit(pq, all, k);
    }
    if k <= 12 {
      LimitFits(k);
    }
  }

  // ---------------------------------------------------------------- the answer

  /** The last value of g. */
  ghost function FinalG(pq: u64, rnd: Stream): (g: nat)
    requires pq >= 2
    ensures 1 <= g <= pq && pq % g == 0
  {
    var i := FinalIndex(pq, AllRounds(pq, rnd));
    RoundDivides(pq, rnd, i);
    RoundAt(pq, rnd, i).g
  }

  lemma FinalGIsLastG(pq: u64, rnd: Stream)
    requires pq >= 2
    ensures FinalG(pq, rnd) == LastG(pq, AllRounds(pq, rnd), 0, 0, 0)
  {
    var all := AllRounds(pq, rnd);
    LastGIsLast(pq, all, 0, 0, 0);
    var i := FinalIndex(pq, all);
    assert all(i) == RoundAt(pq, rnd, i);
  }

  lemma RoundDivides(pq: u64, rnd: Stream, i: nat)
    requires pq >= 2
    ensures var g := RoundAt(pq, rnd, i).g; 1 <= g <= pq && pq % g == 0
  {
    var x, q := Start(rnd(2 * i + 1), pq), Constant(rnd(2 * i), pq);
    RoundIsFirst(x, q, pq, Limit(i));
    TestDivides(x, q, pq, RoundAt(pq, rnd, i).steps);
  }

  /** *p = g; *q0 = pq / g; and the swap. */
  function Ordered(pq: nat, g: nat): (r: (nat, nat))
    requires g > 0
  {
    if g > pq / g then (pq / g, g) else (g, pq / g)
  }

  /** The ordered pair multiplies to pq, and its smaller half exceeds 1 exactly for a proper g. */
  lemma OrderedIsFactoring(pq: nat, g: nat)
    requires pq >= 2 && g > 0 && pq % g == 0
    ensures var (p, q0) := Ordered(pq, g);
            && p * q0 == pq
            && 1 <= p <= q0 <= pq
            && (p > 1 <==> 1 < g < pq)
  {
    DivisorBound(g, pq);
    var h := pq / g;
    assert g * h == h * g == pq;
    if h == 1 {
      assert g == pq;
    } else {
      MulGrows(g, h);
    }
    MulGrows(h, g);
    if g == pq {
      DivModUnique(pq, g, 1, 0);
    }
  }

  /** The two numbers that decompose_64bit leaves in *p and *q0. */
  ghost function Answer(pq: u64, rnd: Stream): (r: (nat, nat))
    requires pq >= 2
  {
    Ordered(pq, FinalG(pq, rnd))
  }

  /** Whatever the stream, the answer is an ordered factoring of pq, trivial unless g is proper. */
  lemma AnswerIsFactoring(pq: u64, rnd: Stream)
    requires pq >= 2
    ensures var (p, q0) := Answer(pq, rnd);
            p * q0 == pq && 1 <= p <= q0 && (p > 1 <==> 1 < FinalG(pq, rnd) < pq)
  {
    OrderedIsFactoring(pq, FinalG(pq, rnd));
  }

  /** The answer is the last g of the run and its cofactor, the smaller one first. */
  lemma AnswerIsLast(pq: u64, rnd: Stream)
    requires pq >= 2
    ensures var (p, q0), rs := Answer(pq, rnd), Run(pq, rnd);
            rs != [] && p * q0 == pq && p <= q0 && (p == rs[|rs| - 1].g || q0 == rs[|rs| - 1].g)
  {
    hide Rounds;
    AnswerIsFactoring(pq, rnd);
  }

  /** Up to 2^63 the run obeys the law of the search. */
  lemma RunObeys(pq: u64, rnd: Stream)
    requires 2 <= pq <= TWO_63
    ensures IsSearch(pq, rnd, Run(pq, rnd))
  {
    hide Rounds, TotalSteps, RoundAt, IsDrawnRound;
    var all, rs := AllRounds(pq, rnd), Run(pq, rnd);
    RunLength(pq, all);
    RoundsAreRun(pq, all, 0, 0);
    forall i | 0 <= i < |rs|
      ensures IsDrawnRound(pq, rnd(2 * i), rnd(2 * i + 1), i, rs[i]) && (i < 3 || TotalSteps(rs[..i]) < 1000)
    {
      assert rs[i] == all(0 + i) == RoundAt(pq, rnd, i);
      RoundAtObeys(pq, rnd, i);
    }
  }

  lemma RoundAtObeys(pq: u64, rnd: Stream, i: nat)
    requires 2 <= pq <= TWO_63
    ensures IsDrawnRound(pq, rnd(2 * i), rnd(2 * i + 1), i, RoundAt(pq, rnd, i))
  {
    hide RoundOf, IsRound, And;
    var rq, rx := rnd(2 * i), rnd(2 * i + 1);
    AndFifteen(rq);
    assert Constant(rq, pq) == (rq % 16 + 17) % pq && Start(rx, pq) == rx % (pq - 1) + 1;
    hide Constant, Start;
    var v, w := RoundObeys(pq, Start(rx, pq), Constant(rq, pq), Limit(i));
  }

  /** Every prime is answered (1, pq); an answer with p > 1 proves pq composite. */
  lemma PrimeIsNotSplit(pq: u64, rnd: Stream)
    requires pq >= 2
    ensures IsPrime(pq) ==> Answer(pq, rnd) == (1, pq)
    ensures Answer(pq, rnd).0 > 1 ==> !IsPrime(pq)
  {
    AnswerIsFactoring(pq, rnd);
    var g := FinalG(pq, rnd);
    DivisorBound(g, pq);
    var (p, q0) := Answer(pq, rnd);
    if p == 1 {
      assert q0 == pq;
    }
  }

  /** Round i finds a common divisor if pq has a divisor d with 1 < d <= 2^(i+18) - 3. */
  lemma RoundAtIsComplete(pq: u64, rnd: Stream, i: nat, d: nat)
    requires 2 <= pq <= TWO_63
    requires 1 < d && pq % d == 0 && d + 3 <= Pow2(i + 18)
    ensures RoundAt(pq, rnd, i).g != 1
  {
    RoundIsComplete(Start(rnd(2 * i + 1), pq), Constant(rnd(2 * i), pq), pq, d, i + 17);
  }

  lemma FinalRound(pq: u64, rnd: Stream) returns (i: nat)
    requires pq >= 2
    ensures FinalG(pq, rnd) == RoundAt(pq, rnd, i).g
    ensures FinalG(pq, rnd) == 1 ==> i >= 2
  {
    i := FinalIndex(pq, AllRounds(pq, rnd));
  }

  lemma LimitFromTwenty(i: nat)
    requires i >= 2
    ensures Limit(i) >= 0x10_0000
  {
    Pow2Values();
    Pow2Monotonic(20, i + 18);
  }

  /**
   The whole search is complete for small divisors: if it ends with g == 1, pq has no divisor
   from 2 to 2^20 - 3.
   */
  lemma OneExcludesSmallDivisors(pq: u64, rnd: Stream, d: nat)
    requires 2 <= pq <= TWO_63 && 1 < d <= 0x10_0000 - 3
    ensures FinalG(pq, rnd) == 1 ==> pq % d != 0
  {
    hide FinalG, RoundAt;
    var i := FinalRound(pq, rnd);
    if FinalG(pq, rnd) == 1 && pq % d == 0 {
      LimitFromTwenty(i);
      RoundAtIsComplete(pq, rnd, i, d);
      assert false;
    }
  }

  lemma FactorDivides(d: nat, e: nat)
    requires e > 0
    ensures (d * e) % e == 0
  {
    assert d * e == e * d;
    ModOfMultiple(e, d);
  }

  lemma Cofactor(d: nat, n: nat) returns (e: nat)
    requires 1 < d < n && n % d == 0
    ensures d * e == n && 1 < e && n % e == 0
  {
    e := n / d;
    DivisorBound(d, n);
    FactorDivides(d, e);
    assert e == 1 ==> d * e == d;
  }

  /** A composite has a divisor up to its square root. */
  lemma SmallDivisor(n: nat) returns (c: nat)
    requires n >= 2 && !IsPrime(n)
    ensures 1 < c && n % c == 0 && c * c <= n
  {
    var d: nat :| 1 < d < n && n % d == 0;
    var e := Cofactor(d, n);
    c := if d <= e then d else e;
    MulMonotonic(c, d, e);
  }

  /** Below (2^20 - 2)^2, ending with g == 1 proves pq prime. */
  lemma OneProvesPrime(pq: u64, rnd: Stream)
    requires 2 <= pq < (0x10_0000 - 2) * (0x10_0000 - 2)
    ensures FinalG(pq, rnd) == 1 ==> IsPrime(pq)
  {
    if FinalG(pq, rnd) == 1 && !IsPrime(pq) {
      var c := SmallDivisor(pq);
      if c >= 0x10_0000 - 2 {
        MulMonotonic(0x10_0000 - 2, c, c);
      }
      OneExcludesSmallDivisors(pq, rnd, c);
      assert false;
    }
  }

  lemma MulMonotonic(m: nat, d: nat, e: nat)
    requires m <= d && m <= e
    ensures m * m <= d * e
  {
    assert d * e == m * m + m * (e - m) + (d - m) * e;
  }

  /**
   So a composite below (2^20 - 2)^2 is left unsplit in one case only: the last round closed
   its cycle modulo all of pq at once.
   */
  lemma SmallCompositeUnsplit(pq: u64, rnd: Stream)
    requires 2 <= pq < (0x10_0000 - 2) * (0x10_0000 - 2) && !IsPrime(pq)
    ensures Answer(pq, rnd).0 == 1 <==> FinalG(pq, rnd) == pq
  {
    AnswerIsFactoring(pq, rnd);
    OneProvesPrime(pq, rnd);
  }

  // ---------------------------------------------------------------- too many rounds

  lemma RoundAtIsShort(pq: u64, rnd: Stream, i: nat)
    requires 2 <= pq < 50
    ensures RoundAt(pq, rnd, i).steps <= 75
  {
    LimitIsLarge(i);
    ModOfMultiple(pq, 1);
    RoundStopsSoon(Start(rnd(2 * i + 1), pq), Constant(rnd(2 * i), pq), pq, Limit(i), pq);
  }

  /**
   A prime below 50 is never split and each of its rounds is short, so every stream drives the
   loop at least to i = 13, where 1 << (i + 18) is not an int any more.
   */
  lemma SmallPrimeOvershifts(pq: u64, rnd: Stream)
    requires IsPrime(pq) && pq < 50
    ensures |Run(pq, rnd)| >= 14
  {
    var all, rs := AllRounds(pq, rnd), Run(pq, rnd);
    RunLength(pq, all);
    RoundsAreRun(pq, all, 0, 0);
    forall k | 0 <= k < |rs| ensures rs[k].steps <= 75 && !(1 < rs[k].g < pq) {
      assert rs[k] == RoundAt(pq, rnd, k);
      RoundAtIsShort(pq, rnd, k);
      RoundDivides(pq, rnd, k);
    }
    StepsAtMost(rs, 75);
  }

  // ---------------------------------------------------------------- the worst stream

  /** The start that the number r gives is a fixed point of the constant that it gives. */
  predicate FixedStart(pq: u64, r: u64)
    requires pq >= 2
  {
    var x := Start(r, pq); Accumulate(x, x, Constant(r, pq), pq) == x
  }

  /** A constant stream whose start is a fixed point wastes every round: one step, g == pq. */
  lemma FixedPointRound(pq: u64, r: u64, i: nat)
    requires pq >= 2 && FixedStart(pq, r)
    ensures RoundAt(pq, _ => r, i) == Round(pq, 1)
  {
    hide RoundOf, Accumulate, Start, Constant, Limit;
    FixedPoint(Start(r, pq), Constant(r, pq), pq, Limit(i));
  }

  /** Such a stream makes exactly 1000 rounds and leaves pq unsplit, prime or not. */
  lemma FixedPointStream(pq: u64, r: u64)
    requires pq >= 2 && FixedStart(pq, r)
    ensures |Run(pq, _ => r)| == 1000
    ensures Answer(pq, _ => r) == (1, pq)
  {
    var rnd: Stream := _ => r;
    var rs := Run(pq, rnd);
    RunLength(pq, AllRounds(pq, rnd));
    RoundsAreRun(pq, AllRounds(pq, rnd), 0, 0);
    forall k | 0 <= k < |rs| ensures rs[k] == Round(pq, 1) {
      FixedPointRound(pq, r, k);
    }
    OneStepEach(rs);
    DivModUnique(pq, pq, 1, 0);
  }

  /**
   The composite 4 with the stream 3, 3, 3, ... : q = 20 % 4 = 0 and x = 1 is its own square.
   The answer is (1, 4), and the loop reaches i = 999, far beyond the shift that int allows.
   */
  lemma CompositeCanBeMissed()
    ensures Answer(4, _ => 3) == (1, 4) && |Run(4, _ => 3)| == 1000
    ensures !IsPrime(4)
  {
    AndFifteen(3);
    AccumulateIsExact(1, 1, 0, 4);
    assert 4 % 2 == 0;
    FixedPointStream(4, 3);
  }

  // ---------------------------------------------------------------- the code

  /** One turn of the outer loop, and its end. */
  lemma TurnOfLoop(pq: u64, rnd: Stream, i: nat, iter: nat, g: nat)
    requires pq >= 2
    ensures var all, r := AllRounds(pq, rnd), RoundAt(pq, rnd, i);
            LastG(pq, all, i, iter, g)
            == if !(i < 3 || iter < 1000) then g
               else if 1 < r.g < pq then r.g
               else LastG(pq, all, i + 1, iter + r.steps, r.g)
    ensures RoundAt(pq, rnd, i)
            == RoundOf(Start(rnd(2 * i + 1), pq), Constant(rnd(2 * i), pq), pq, Limit(i))
  {
    hide RoundOf, Start, Constant, Limit;
  }

  lemma AnswerFrom(pq: u64, rnd: Stream, g: nat)
    requires pq >= 2 && g == LastG(pq, AllRounds(pq, rnd), 0, 0, 0)
    ensures 1 <= g <= pq && 1 <= pq / g <= pq
    ensures Answer(pq, rnd) == if g > pq / g then (pq / g, g) else (g, pq / g)
    ensures Answer(pq, rnd).0 * Answer(pq, rnd).1 == pq && 1 <= Answer(pq, rnd).0 <= Answer(pq, rnd).1
  {
    FinalGIsLastG(pq, rnd);
    AnswerIsFactoring(pq, rnd);
    DivisorBound(g, pq);
  }

  /** decompose_64bit */
  method Decompose64(pq: u64, rnd: Stream) returns (p: u64, q0: u64)
    requires pq >= 2
    ensures (p, q0) == Answer(pq, rnd)
    ensures p * q0 == pq && 1 <= p <= q0
    ensures pq <= TWO_63 ==>
              exists rs: seq<Round> :: IsSearch(pq, rnd, rs) && (p == rs[|rs| - 1].g || q0 == rs[|rs| - 1].g)
  {
    hide *;
    ghost var all := AllRounds(pq, rnd);
    var iter, i := 0, 0;
    var g: u64 := 0;
    while i < 3 || iter < 1000
      invariant LastG(pq, all, i, iter, g) == LastG(pq, all, 0, 0, 0)
      decreases (if i < 3 then 3 - i else 0) + (if iter < 1000 then 1000 - iter else 0)
    {
      TurnOfLoop(pq, rnd, i, iter, g);
      var q := Constant(rnd(2 * i), pq);
      var x := Start(rnd(2 * i + 1), pq);
      g, iter := Search(x, q, pq, Limit(i), iter);
      if g > 1 && g < pq {
        break;
      }
      i := i + 1;
    }
    TurnOfLoop(pq, rnd, i, iter, g);
    AnswerFrom(pq, rnd, g);
    AnswerIsLast(pq, rnd);
    if pq <= TWO_63 {
      RunObeys(pq, rnd);
    }
    p := g;
    q0 := pq / g;
    if p > q0 {
      p, q0 := q0, p;
    }
  }

  const TEST_PQ: u64 := 2341224282031054919

  /** The number of math_test is composite, within the range in which the square is exact. */
  lemma TestNumber()
    ensures 1444444447 * 1620847577 == TEST_PQ <= TWO_63 && !IsPrime(TEST_PQ)
  {
    var d: nat :| d == 1444444447;
    ModOfMultiple(d, 1620847577);
    assert TEST_PQ % d == 0;
  }

  /** math_test: the product check always succeeds, and does not wrap. */
  method MathTest(rnd: Stream) returns (r: int)
    ensures r == 0
  {
    var p, q := Decompose64(TEST_PQ, rnd);
    assert p * q < TWO_64;
    if Mul64(p, q) == TEST_PQ {
      return 0;
    }
    return -1;
  }
}
