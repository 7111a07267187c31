/**
 One round of the search in src/math.c: iterate x -> x*x + q modulo pq, compare with an
 anchor that moves to each power of two, and stop at the first common divisor with pq.
 */
module Rho {
  import opened Arith
  import opened Euclid
  import opened ModSquare
  import opened Restart
  import Pigeonhole

  /** The n-th value of x in a round, as the 64-bit code computes it. */
  function Iterate(x: u64, q: u64, pq: u64, n: nat): (r: u64)
    requires x < pq && q < pq
    ensures r < pq
  {
    if n == 0 then x
    else var v := Iterate(x, q, pq, n - 1); Accumulate(v, v, q, pq)
  }

  /** One step of the iteration, over the integers. */
  function Successor(v: nat, q: nat, pq: nat): (r: nat)
    requires pq > 0
    ensures r < pq
  {
    (v * v + q) % pq
  }

  /** The same iteration over the integers. */
  function Orbit(x: nat, q: nat, pq: nat, n: nat): (r: nat)
    requires pq > 0
  {
    if n == 0 then x else Successor(Orbit(x, q, pq, n - 1), q, pq)
  }

  lemma {:induction false} IterateIsOrbit(x: u64, q: u64, pq: u64, n: nat)
    requires x < pq <= TWO_63 && q < pq
    ensures Iterate(x, q, pq, n) == Orbit(x, q, pq, n)
  {
    if n == 0 {
    } else {
      IterateIsOrbit(x, q, pq, n - 1);
      var v := Iterate(x, q, pq, n - 1);
      AccumulateIsExact(v, v, q, pq);
    }
  }

  // ---------------------------------------------------------------- the anchor

  /** The largest power of two below j; 0 when there is none. */
  function Anchor(j: nat): (k: nat)
    ensures j >= 2 ==> k < j <= 2 * k
    ensures j >= 1 ==> k < j
  {
    if j <= 1 then 0 else if j == 2 then 1 else 2 * Anchor((j + 1) / 2)
  }

  lemma {:induction false} AnchorIsPow2(j: nat)
    requires j >= 2
    ensures IsPow2(Anchor(j))
  {
    if j == 2 {
      assert 1 == Pow2(0);
    } else {
      AnchorIsPow2((j + 1) / 2);
      var k: nat :| Anchor((j + 1) / 2) == Pow2(k);
      assert Anchor(j) == Pow2(k + 1);
    }
  }

  /** No other power of two lies in the same position below j. */
  lemma AnchorIsUnique(j: nat, k: nat)
    requires Pow2(k) < j <= 2 * Pow2(k)
    ensures Anchor(j) == Pow2(k)
  {
    AnchorIsPow2(j);
    var m: nat :| Anchor(j) == Pow2(m);
    if m < k {
      Pow2Monotonic(m + 1, k);
    } else if k < m {
      Pow2Monotonic(k + 1, m);
    }
  }

  /** if (!(j & (j - 1))) y = x; keeps y at the anchor. */
  lemma AnchorMoves(j: nat)
    requires j >= 1
    ensures Anchor(j + 1) == if And(j, j - 1) == 0 then j else Anchor(j)
  {
    AndPredecessor(j);
    if IsPow2(j) {
      var k: nat :| j == Pow2(k);
      AnchorIsUnique(j + 1, k);
    } else {
      assert Pow2(0) == 1 && Pow2(1) == 2;
      AnchorIsPow2(j);
      var k: nat :| Anchor(j) == Pow2(k);
      assert j != Pow2(k + 1);
      AnchorIsUnique(j + 1, k);
    }
  }

  // ---------------------------------------------------------------- the comparison

  /** z = x < y ? pq + x - y : x - y */
  function Gap(x: u64, y: u64, pq: u64): (z: u64)
    requires x < pq && y < pq
    ensures z == if x < y then pq + x - y else x - y
    ensures z < pq
  {
    if x < y then Sub64(Add64(pq, x), y) else Sub64(x, y)
  }

  /** The value of g at step j of a round. */
  function Test(x: u64, q: u64, pq: u64, j: nat): (g: nat)
    requires x < pq && q < pq
    ensures g > 0
  {
    Gcd(Gap(Iterate(x, q, pq, j), Iterate(x, q, pq, Anchor(j)), pq), pq)
  }

  lemma TestDivides(x: u64, q: u64, pq: u64, j: nat)
    requires x < pq && q < pq
    ensures pq % Test(x, q, pq, j) == 0 && Test(x, q, pq, j) <= pq
  {
    GcdIsGreatest(Gap(Iterate(x, q, pq, j), Iterate(x, q, pq, Anchor(j)), pq), pq);
    DivisorBound(Test(x, q, pq, j), pq);
  }

  lemma GapDivisor(x: u64, y: u64, pq: u64, d: nat)
    requires x < pq && y < pq && d > 0 && pq % d == 0
    ensures Gap(x, y, pq) % d == 0 <==> x % d == y % d
  {
    SameRemainder(x, y, d);
    if x < y {
      ModSum(x - y, pq, d);
    }
  }

  /** u and v leave the same remainder on division by some divisor of pq greater than 1. */
  ghost predicate AgreeModuloDivisor(u: nat, v: nat, pq: nat) {
    exists d: nat :: 1 < d && pq % d == 0 && u % d == v % d
  }

  lemma TestIsAgreement(x: u64, q: u64, pq: u64, j: nat)
    requires x < pq && q < pq && 2 <= pq
    ensures Test(x, q, pq, j) != 1
            <==> AgreeModuloDivisor(Iterate(x, q, pq, j), Iterate(x, q, pq, Anchor(j)), pq)
  {
    var u, v := Iterate(x, q, pq, j), Iterate(x, q, pq, Anchor(j));
    var z := Gap(u, v, pq);
    SharesDivisor(z, pq);
    if Test(x, q, pq, j) != 1 {
      var d: nat :| 1 < d && pq % d == 0 && z % d == 0;
      GapDivisor(u, v, pq, d);
      assert 1 < d && pq % d == 0 && u % d == v % d;
    }
    if AgreeModuloDivisor(u, v, pq) {
      var d: nat :| 1 < d && pq % d == 0 && u % d == v % d;
      GapDivisor(u, v, pq, d);
      assert 1 < d && pq % d == 0 && z % d == 0;
    }
  }

  // ---------------------------------------------------------------- one round

  function RoundFrom(x: u64, q: u64, pq: u64, lim: nat, j: nat): (r: Round)
    requires x < pq && q < pq && 1 <= j <= lim && 2 <= lim
    ensures 1 <= r.steps < lim && r.g > 0
    decreases lim - j
  {
    if j == lim then Round(1, lim - 1)
    else if Test(x, q, pq, j) != 1 then Round(Test(x, q, pq, j), j)
    else RoundFrom(x, q, pq, lim, j + 1)
  }

  /** The outcome of a round of limit lim. */
  function RoundOf(x: u64, q: u64, pq: u64, lim: nat): (r: Round)
    requires x < pq && q < pq && 2 <= lim
    ensures 1 <= r.steps < lim && r.g > 0
  {
    RoundFrom(x, q, pq, lim, 1)
  }

  lemma {:induction false} RoundFromIsFirst(x: u64, q: u64, pq: u64, lim: nat, j: nat)
    requires x < pq && q < pq && 1 <= j <= lim && 2 <= lim
    requires forall k :: 1 <= k < j ==> Test(x, q, pq, k) == 1
    ensures var r := RoundFrom(x, q, pq, lim, j);
            && r.g == Test(x, q, pq, r.steps)
            && (forall k :: 1 <= k < r.steps ==> Test(x, q, pq, k) == 1)
            && (r.g == 1 ==> r.steps == lim - 1)
    decreases lim - j
  {
    hide Test;
    if j < lim && Test(x, q, pq, j) == 1 {
      RoundFromIsFirst(x, q, pq, lim, j + 1);
    }
  }

  lemma RoundIsFirst(x: u64, q: u64, pq: u64, lim: nat)
    requires x < pq && q < pq && 2 <= lim
    ensures var r := RoundOf(x, q, pq, lim);
            && r.g == Test(x, q, pq, r.steps)
            && (forall k :: 1 <= k < r.steps ==> Test(x, q, pq, k) == 1)
            && (r.g == 1 ==> r.steps == lim - 1)
  {
    RoundFromIsFirst(x, q, pq, lim, 1);
  }

  /** A round that breaks is the same under every limit that lets it come so far. */
  lemma RoundKeeps(x: u64, q: u64, pq: u64, lim: nat, lim': nat)
    requires x < pq && q < pq && 2 <= lim && 2 <= lim'
    requires RoundOf(x, q, pq, lim).g != 1 && RoundOf(x, q, pq, lim).steps < lim'
    ensures RoundOf(x, q, pq, lim') == RoundOf(x, q, pq, lim)
  {
    hide RoundOf, Test;
    RoundIsFirst(x, q, pq, lim);
    RoundIsFirst(x, q, pq, lim');
    var r, r' := RoundOf(x, q, pq, lim), RoundOf(x, q, pq, lim');
    if r'.steps < r.steps {
      assert false;
    } else if r.steps < r'.steps {
      assert false;
    }
  }

  /** Step j compares the j-th point of the orbit with the one at the anchor of j. */
  ghost predicate Meets(x: nat, q: nat, pq: nat, j: nat)
    requires pq > 0
  {
    AgreeModuloDivisor(Orbit(x, q, pq, j), Orbit(x, q, pq, Anchor(j)), pq)
  }

  lemma TestIsMeeting(x: u64, q: u64, pq: u64, j: nat)
    requires x < pq && q < pq && 2 <= pq <= TWO_63
    ensures Test(x, q, pq, j) != 1 <==> Meets(x, q, pq, j)
  {
    TestIsAgreement(x, q, pq, j);
    IterateIsOrbit(x, q, pq, j);
    IterateIsOrbit(x, q, pq, Anchor(j));
  }

  /**
   The exact stopping point: a round breaks at step j if and only if j is the first step below
   the limit whose orbit point agrees with its anchor modulo a divisor of pq greater than 1.
   */
  lemma StopsAtFirstMeeting(x: u64, q: u64, pq: u64, lim: nat, j: nat)
    requires x < pq && q < pq && 2 <= pq <= TWO_63 && 2 <= lim && 1 <= j < lim
    ensures var r := RoundOf(x, q, pq, lim);
            (r.g != 1 && r.steps == j) <==>
            (Meets(x, q, pq, j) && forall k :: 1 <= k < j ==> !Meets(x, q, pq, k))
  {
    RoundIsFirst(x, q, pq, lim);
    forall k: nat ensures Test(x, q, pq, k) != 1 <==> Meets(x, q, pq, k) {
      TestIsMeeting(x, q, pq, k);
    }
  }

  /** The middle loop starts at step 1, with x and y at the start, and ends at the limit. */
  lemma EndsOfSearch(start: u64, q: u64, pq: u64, lim: nat)
    requires start < pq && q < pq && 2 <= lim
    ensures start == Iterate(start, q, pq, 0) == Iterate(start, q, pq, Anchor(1))
    ensures RoundFrom(start, q, pq, lim, 1) == RoundOf(start, q, pq, lim)
    ensures RoundFrom(start, q, pq, lim, lim) == Round(1, lim - 1)
  {
  }

  /** A round that starts at a fixed point ends at once, with all of pq. */
  lemma FixedPoint(x: u64, q: u64, pq: u64, lim: nat)
    requires x < pq && q < pq && 2 <= pq && 2 <= lim && Accumulate(x, x, q, pq) == x
    ensures RoundOf(x, q, pq, lim) == Round(pq, 1)
  {
    hide Accumulate;
    assert Anchor(1) == 0;
    assert Iterate(x, q, pq, 0) == x;
    assert Iterate(x, q, pq, 1) == x;
    assert Gap(x, x, pq) == 0;
    DivModUnique(0, pq, 0, 0);
    assert Gcd(0, pq) == Gcd(pq, 0) == pq;
  }

  /** One turn of the middle loop: from x and y of step j to those of step j + 1. */
  lemma TurnOfSearch(start: u64, q: u64, pq: u64, lim: nat, j: nat, x: u64, y: u64, x': u64)
    requires start < pq && q < pq && 2 <= lim && 1 <= j < lim
    requires x == Iterate(start, q, pq, j - 1) && y == Iterate(start, q, pq, Anchor(j))
    requires x' == Accumulate(x, x, q, pq)
    ensures x' == Iterate(start, q, pq, j)
    ensures var g := Gcd(Gap(x', y, pq), pq);
            && 1 <= g <= pq
            && RoundFrom(start, q, pq, lim, j)
               == if g != 1 then Round(g, j) else RoundFrom(start, q, pq, lim, j + 1)
    ensures (if And(j, j - 1) == 0 then x' else y) == Iterate(start, q, pq, Anchor(j + 1))
  {
    TestDivides(start, q, pq, j);
    AnchorMoves(j);
  }

  /** The middle loop of decompose_64bit. */
  method Search(start: u64, q: u64, pq: u64, lim: nat, iter: nat) returns (g: u64, iter': nat)
    requires start < pq && q < pq && 2 <= pq && 2 <= lim
    ensures iter' > iter && Round(g, iter' - iter) == RoundOf(start, q, pq, lim)
  {
    hide *;
    var x: u64, y: u64 := start, start;
    var j := 1;
    g := 1;
    iter' := iter;
    EndsOfSearch(start, q, pq, lim);
    while j < lim
      invariant 1 <= j <= lim && iter' == iter + j - 1 && g == 1
      invariant x == Iterate(start, q, pq, j - 1)
      invariant y == Iterate(start, q, pq, Anchor(j))
      invariant RoundFrom(start, q, pq, lim, j) == RoundOf(start, q, pq, lim)
    {
      iter' := iter' + 1;
      ghost var before := x;
      x := SquarePlus(x, q, pq);
      TurnOfSearch(start, q, pq, lim, j, before, y, x);
      var z := Gap(x, y, pq);
      g := Gcd(z, pq);
      if g != 1 {
        return;
      }
      if And(j, j - 1) == 0 {
        y := x;
      }
      j := j + 1;
    }
  }

  // ---------------------------------------------------------------- completeness

  /** The residue of v modulo d up to sign: v and -v have the same square. */
  function Fold(v: nat, d: nat): (r: nat)
    requires d > 0
    ensures r < d / 2 + 1
  {
    var m := v % d; if m <= d - m then m else d - m
  }

  lemma OppositeResidues(u: nat, v: nat, d: nat)
    requires d > 0 && u % d + v % d == d
    ensures (u + v) % d == 0
  {
    var i, j := u / d, v / d;
    assert u == d * i + u % d && v == d * j + v % d;
    assert d * (i + j + 1) == d * i + d * j + d;
    ModOfMultiple(d, i + j + 1);
  }

  /** Squares of numbers equal up to sign modulo d are equal modulo d. */
  lemma FoldedSquares(u: nat, v: nat, d: nat)
    requires d > 0 && Fold(u, d) == Fold(v, d)
    ensures (u * u) % d == (v * v) % d
  {
    SameRemainder(u * u, v * v, d);
    if u % d == v % d {
      SameRemainder(u, v, d);
      ModMultiply(u - v, d, u + v);
      assert (u - v) * (u + v) == u * u - v * v;
    } else {
      OppositeResidues(u, v, d);
      ModMultiply(u + v, d, u - v);
      assert (u + v) * (u - v) == u * u - v * v;
    }
  }

  /** One step of the orbit, seen modulo a divisor of pq. */
  lemma StepModuloDivisor(u: nat, v: nat, q: nat, pq: nat, d: nat)
    requires d > 0 && pq > 0 && pq % d == 0 && Fold(u, d) == Fold(v, d)
    ensures Successor(u, q, pq) % d == Successor(v, q, pq) % d
  {
    FoldedSquares(u, v, d);
    ModOfMod(u * u + q, pq, d);
    ModOfMod(v * v + q, pq, d);
    SameRemainder(u * u, v * v, d);
    SameRemainder(u * u + q, v * v + q, d);
  }

  lemma SameFold(u: nat, v: nat, d: nat)
    requires d > 0 && u % d == v % d
    ensures Fold(u, d) == Fold(v, d)
  {
  }

  /** A repetition modulo d is repeated for ever. */
  lemma {:induction false} OrbitRepeats(x: nat, q: nat, pq: nat, d: nat, s: nat, t: nat, n: nat)
    requires d > 0 && pq > 0 && pq % d == 0
    requires Orbit(x, q, pq, s) % d == Orbit(x, q, pq, t) % d
    ensures Orbit(x, q, pq, s + n) % d == Orbit(x, q, pq, t + n) % d
    decreases n
  {
    hide Successor, Fold;
    if n == 0 {
    } else {
      OrbitRepeats(x, q, pq, d, s, t, n - 1);
      var u, v := Orbit(x, q, pq, s + (n - 1)), Orbit(x, q, pq, t + (n - 1));
      SameFold(u, v, d);
      StepModuloDivisor(u, v, q, pq, d);
    }
  }

  /** The orbit modulo d repeats within d / 2 + 2 steps, tail and period together. */
  lemma OrbitCloses(x: nat, q: nat, pq: nat, d: nat) returns (s: nat, t: nat)
    requires d > 0 && pq > 0 && pq % d == 0
    ensures 1 <= s < t <= d / 2 + 2
    ensures Orbit(x, q, pq, s) % d == Orbit(x, q, pq, t) % d
  {
    hide Successor, Fold;
    var m := d / 2 + 1;
    var folded := seq(m + 1, n requires 0 <= n <= m => Fold(Orbit(x, q, pq, n), d));
    var i, j := Pigeonhole.Repetition(folded, m);
    assert folded[i] == Fold(Orbit(x, q, pq, i), d) && folded[j] == Fold(Orbit(x, q, pq, j), d);
    StepModuloDivisor(Orbit(x, q, pq, i), Orbit(x, q, pq, j), q, pq, d);
    s, t := i + 1, j + 1;
  }

  /** The anchor catches the repetition: both ends fit between a power of two and its double. */
  lemma AnchorCatches(x: nat, q: nat, pq: nat, d: nat, s: nat, t: nat, e: nat)
    requires 1 < d && pq > 0 && pq % d == 0
    requires 1 <= s < t && Orbit(x, q, pq, s) % d == Orbit(x, q, pq, t) % d
    requires s <= Pow2(e) && t - s <= Pow2(e)
    ensures Meets(x, q, pq, Pow2(e) + (t - s))
  {
    hide Orbit, Anchor, Pow2;
    var k := Pow2(e);
    var j := k + (t - s);
    OrbitRepeats(x, q, pq, d, s, t, k - s);
    AnchorIsUnique(j, e);
    assert Orbit(x, q, pq, j) % d == Orbit(x, q, pq, Anchor(j)) % d;
  }

  /** A round stops no later than at a meeting below its limit. */
  lemma StopsByMeeting(x: u64, q: u64, pq: u64, lim: nat, j: nat)
    requires x < pq && q < pq && 2 <= pq <= TWO_63 && 1 <= j < lim && Meets(x, q, pq, j)
    ensures var r := RoundOf(x, q, pq, lim); r.g != 1 && r.steps <= j
  {
    TestIsMeeting(x, q, pq, j);
    RoundIsFirst(x, q, pq, lim);
  }

  /**
   Completeness of a round: if pq has any divisor d with 1 < d <= 2^(e+1) - 3, then a round of
   limit 2^(e+1) breaks with g != 1 before it reaches the limit, whatever the start and q.
   */
  lemma RoundIsComplete(x: u64, q: u64, pq: u64, d: nat, e: nat)
    requires x < pq && q < pq && 2 <= pq <= TWO_63
    requires 1 < d && pq % d == 0 && d + 3 <= Pow2(e + 1)
    ensures RoundOf(x, q, pq, Pow2(e + 1)).g != 1
  {
    var s, t := OrbitCloses(x, q, pq, d);
    AnchorCatches(x, q, pq, d, s, t, e);
    StopsByMeeting(x, q, pq, Pow2(e + 1), Pow2(e) + (t - s));
  }

  lemma {:induction false} PowerAtLeast(n: nat) returns (e: nat)
    requires n >= 1
    ensures n <= Pow2(e) < 2 * n
  {
    if n == 1 {
      e := 0;
    } else {
      e := PowerAtLeast(n - 1);
      if Pow2(e) < n {
        e := e + 1;
      }
    }
  }

  /**
   How soon: a divisor d > 1 of pq makes every round whose limit allows it stop, with g != 1,
   within three times d / 2 + 1 steps.
   */
  lemma RoundStopsSoon(x: u64, q: u64, pq: u64, lim: nat, d: nat)
    requires x < pq && q < pq && 2 <= pq <= TWO_63
    requires 1 < d && pq % d == 0 && 3 * (d / 2 + 1) < lim
    ensures var r := RoundOf(x, q, pq, lim); r.g != 1 && r.steps <= 3 * (d / 2 + 1)
  {
    var s, t := OrbitCloses(x, q, pq, d);
    var e := PowerAtLeast(d / 2 + 1);
    AnchorCatches(x, q, pq, d, s, t, e);
    StopsByMeeting(x, q, pq, lim, Pow2(e) + (t - s));
  }
}
