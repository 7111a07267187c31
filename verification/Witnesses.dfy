/**
 Numbers that show both sides of the conditions of SplitConditions: 770 is split on every stream,
 in the first round; 113471 = 233 * 487 is missed on some stream with every shift defined.
 */
module Witnesses {
  import opened Arith
  import opened Decompose
  import opened Euclid
  import opened ModSquare
  import opened Restart
  import opened Rho
  import opened SplitConditions

  // ---------------------------------------------------------------- 770 is always split

  const SURE: u64 := 770

  lemma ResidueOfResidue(u: nat, p: nat)
    requires p > 0
    ensures u % p % p == u % p
  {
    DivModUnique(u % p, p, 0, u % p);
  }

  lemma SuccessorModulo(v: nat, q: nat, pq: nat, p: nat)
    requires pq > 0 && p > 0 && pq % p == 0
    ensures Successor(v, q, pq) % p == Successor(v, q, p)
  {
    ModOfMod(v * v + q, pq, p);
  }

  /** The square of u modulo p, by table. */
  function SquareModulo(u: nat, p: nat): (r: nat)
    requires u < p && (p == 5 || p == 7 || p == 11)
    ensures r < p
  {
    var m := if u <= p - u then u else p - u;
    if m <= 1 then m else if m == 2 then 4
    else if p == 7 then 2
    else if m == 3 then 9 else if m == 4 then 5 else 3
  }

  /** One step of the orbit modulo p, for a constant of residue c. */
  function Advance(u: nat, c: nat, p: nat): (r: nat)
    requires u < p && c < p && (p == 5 || p == 7 || p == 11)
    ensures r < p
  {
    var s := SquareModulo(u, p) + c; if s < p then s else s - p
  }

  predicate Fixed(u: nat, c: nat, p: nat)
    requires u < p && c < p && (p == 5 || p == 7 || p == 11)
  {
    Advance(u, c, p) == u
  }

  /** The orbit of u first agrees with its anchor at step 4. */
  predicate FourSteps(u: nat, c: nat, p: nat)
    requires u < p && c < p && (p == 5 || p == 7 || p == 11)
  {
    var v1 := Advance(u, c, p);
    var v2 := Advance(v1, c, p);
    var v3 := Advance(v2, c, p);
    v1 != u && v2 != v1 && v3 != v2 && Advance(v3, c, p) == v2
  }

  lemma Modulo5(u: nat)
    requires u < 5
    ensures !Fixed(u, 1, 5) && !Fixed(u, 2, 5)
    ensures !FourSteps(u, 0, 5) && !FourSteps(u, 1, 5)
  {
  }

  lemma Modulo7(u: nat)
    requires u < 7
    ensures !Fixed(u, 3, 7) && !Fixed(u, 4, 7) && !Fixed(u, 6, 7)
    ensures !FourSteps(u, 1, 7) && !FourSteps(u, 2, 7)
  {
  }

  lemma MoreModulo7(u: nat)
    requires u < 7
    ensures !FourSteps(u, 3, 7) && !FourSteps(u, 5, 7)
  {
  }

  lemma Modulo11(u: nat)
    requires u < 11
    ensures !Fixed(u, 6, 11) && !Fixed(u, 8, 11)
    ensures !FourSteps(u, 5, 11)
  {
  }

  lemma SquareTable(u: nat, p: nat)
    requires u < p && (p == 5 || p == 7 || p == 11)
    ensures exists k: nat :: u * u == p * k + SquareModulo(u, p)
  {
    var k := if p == 5 then [0, 0, 0, 1, 3][u]
             else if p == 7 then [0, 0, 0, 1, 2, 3, 5][u]
             else [0, 0, 0, 0, 1, 2, 3, 4, 5, 7, 9][u];
    assert u in {0, 1, 2, 3, 4, 5, 6, 7, 8, 9, 10};
    assert u * u == p * k + SquareModulo(u, p);
  }

  /** The table is the step of the orbit, seen modulo p. */
  lemma AdvanceIsSuccessor(v: nat, q: nat, p: nat, m: nat, c: nat)
    requires (p == 5 || p == 7 || p == 11) && c < p && q == p * m + c
    ensures SURE % p == 0 && Successor(v, q, SURE) % p == Advance(v % p, c, p)
  {
    hide Successor, Fold, Advance;
    assert SURE % 5 == 0 && SURE % 7 == 0 && SURE % 11 == 0;
    var u := v % p;
    ResidueOfResidue(v, p);
    SameFold(v, u, p);
    StepModuloDivisor(v, u, q, SURE, p);
    SuccessorModulo(u, q, SURE, p);
    StepByTable(u, q, p, m, c);
  }

  lemma StepByTable(u: nat, q: nat, p: nat, m: nat, c: nat)
    requires (p == 5 || p == 7 || p == 11) && u < p && c < p && q == p * m + c
    ensures Successor(u, q, p) == Advance(u, c, p)
  {
    hide SquareModulo;
    SquareTable(u, p);
    var k: nat :| u * u == p * k + SquareModulo(u, p);
    var s := SquareModulo(u, p) + c;
    if s < p {
      assert u * u + q == p * (k + m) + s;
      DivModUnique(u * u + q, p, k + m, s);
    } else {
      assert u * u + q == p * (k + m + 1) + (s - p);
      DivModUnique(u * u + q, p, k + m + 1, s - p);
    }
  }

  /** A prime divisor p of 770 modulo which no residue is fixed, or none goes on for four steps. */
  ghost predicate Spares(q: nat, p: nat, m: nat, c: nat) {
    && (p == 5 || p == 7 || p == 11) && c < p && q == p * m + c
    && forall u :: 0 <= u < p ==> !(if q % 2 == 0 then Fixed(u, c, p) else FourSteps(u, c, p))
  }

  lemma SparingPrime(q: nat) returns (p: nat, m: nat, c: nat)
    requires 17 <= q <= 32
    ensures Spares(q, p, m, c)
  {
    hide Fixed, FourSteps;
    p := if q in {21, 22, 25, 26} then 5 else if q in {27, 28, 30} then 11 else 7;
    m := if p == 11 then 2 else if p == 5 then (if q < 25 then 4 else 5)
         else if q < 21 then 2 else if q < 28 then 3 else 4;
    c := q - p * m;
    var even := q % 2 == 0;
    assert Chosen(even, p, c);
    forall u | 0 <= u < p ensures !(if even then Fixed(u, c, p) else FourSteps(u, c, p)) {
      ChosenSpares(even, p, c, u);
    }
  }

  predicate Chosen(even: bool, p: nat, c: nat) {
    || (p == 5 && c in (if even then {1, 2} else {0, 1}))
    || (p == 7 && c in (if even then {3, 4, 6} else {1, 2, 3, 5}))
    || (p == 11 && c in (if even then {6, 8} else {5}))
  }

  lemma ChosenSpares(even: bool, p: nat, c: nat, u: nat)
    requires Chosen(even, p, c) && u < p
    ensures c < p && !(if even then Fixed(u, c, p) else FourSteps(u, c, p))
  {
    hide Fixed, FourSteps;
    if p == 5 {
      Modulo5(u);
    } else if p == 7 {
      Modulo7(u);
      MoreModulo7(u);
    } else {
      Modulo11(u);
    }
  }

  lemma SquareParity(v: nat)
    ensures (v * v) % 2 == v % 2
  {
    var k, b := v / 2, v % 2;
    assert v == 2 * k + b;
    assert b == 0 ==> v * v == 2 * (k * v);
    assert b == 1 ==> v * v == 2 * (k * v) + v == 2 * (k * v + k) + 1;
  }

  lemma SameParity(m: nat, n: nat, q: nat)
    requires m % 2 == n % 2
    ensures (m + q) % 2 == (n + q) % 2
  {
  }

  /** With an odd constant the orbit changes parity at every step, with an even one never. */
  lemma ParityOfStep(v: nat, q: nat)
    ensures Successor(v, q, SURE) % 2 == (v + q) % 2
  {
    SquareParity(v);
    SameParity(v * v, v, q);
    ModOfMod(v * v + q, SURE, 2);
  }

  lemma ParityMeets(x: nat, q: nat, j: nat)
    requires Orbit(x, q, SURE, j) % 2 == Orbit(x, q, SURE, Anchor(j)) % 2
    ensures Meets(x, q, SURE, j)
  {
    hide Orbit, Anchor;
    assert SURE % 2 == 0;
  }

  lemma ResidueMeets(x: nat, q: nat, j: nat, p: nat)
    requires p > 1 && SURE % p == 0
    requires Orbit(x, q, SURE, j) % p == Orbit(x, q, SURE, Anchor(j)) % p
    ensures Meets(x, q, SURE, j)
  {
    hide Orbit, Anchor;
  }

  lemma FirstAnchors()
    ensures Anchor(1) == 0 && Anchor(2) == 1 && Anchor(3) == 2 && Anchor(4) == 2
  {
  }

  /** The first points of the orbit. */
  lemma FirstPoints(x: nat, q: nat)
    ensures Orbit(x, q, SURE, 0) == x
    ensures Orbit(x, q, SURE, 1) == Successor(x, q, SURE)
    ensures Orbit(x, q, SURE, 2) == Successor(Orbit(x, q, SURE, 1), q, SURE)
    ensures Orbit(x, q, SURE, 3) == Successor(Orbit(x, q, SURE, 2), q, SURE)
    ensures Orbit(x, q, SURE, 4) == Successor(Orbit(x, q, SURE, 3), q, SURE)
  {
    hide Successor;
  }

  /** With an even constant the round ends at step 1, where no point is fixed. */
  lemma EvenConstant(x: u64, q: u64, j: nat)
    requires x < SURE && 17 <= q <= 32 && q % 2 == 0
    requires forall k :: 1 <= k < j ==> !Meets(x, q, SURE, k)
    requires 1 <= j && Meets(x, q, SURE, j)
    ensures Orbit(x, q, SURE, j) != Orbit(x, q, SURE, Anchor(j))
  {
    hide Successor, Orbit, Anchor, Meets, Advance;
    FirstAnchors();
    FirstPoints(x, q);
    ParityOfStep(x, q);
    ParityMeets(x, q, 1);
    assert j == 1;
    var p, m, c := SparingPrime(q);
    AdvanceIsSuccessor(x, q, p, m, c);
    assert !Fixed(x % p, c, p);
  }

  /** With an odd one it ends by step 4: the parity differs before, and no residue lasts till then. */
  lemma OddConstant(x: u64, q: u64, j: nat)
    requires x < SURE && 17 <= q <= 32 && q % 2 == 1
    requires forall k :: 1 <= k < j ==> !Meets(x, q, SURE, k)
    requires 1 <= j && Meets(x, q, SURE, j)
    ensures Orbit(x, q, SURE, j) != Orbit(x, q, SURE, Anchor(j))
  {
    hide Successor, Orbit, Anchor, Meets, Advance;
    FirstAnchors();
    FirstPoints(x, q);
    var v1, v2, v3 := Orbit(x, q, SURE, 1), Orbit(x, q, SURE, 2), Orbit(x, q, SURE, 3);
    ParityOfStep(x, q);
    ParityOfStep(v1, q);
    ParityOfStep(v2, q);
    ParityOfStep(v3, q);
    ParityMeets(x, q, 4);
    assert j <= 4;
    if j == 4 {
      LateMeeting(x, q);
    }
  }

  lemma LateMeeting(x: u64, q: u64)
    requires x < SURE && 17 <= q <= 32 && q % 2 == 1
    requires !Meets(x, q, SURE, 1) && !Meets(x, q, SURE, 2) && !Meets(x, q, SURE, 3)
    ensures Orbit(x, q, SURE, 4) != Orbit(x, q, SURE, 2)
  {
    hide Successor, Orbit, Anchor, Meets, Advance;
    FirstAnchors();
    FirstPoints(x, q);
    var v1, v2, v3 := Orbit(x, q, SURE, 1), Orbit(x, q, SURE, 2), Orbit(x, q, SURE, 3);
    var p, m, c := SparingPrime(q);
    AdvanceIsSuccessor(x, q, p, m, c);
    AdvanceIsSuccessor(v1, q, p, m, c);
    AdvanceIsSuccessor(v2, q, p, m, c);
    AdvanceIsSuccessor(v3, q, p, m, c);
    if v1 % p == x % p {
      ResidueMeets(x, q, 1, p);
    }
    if v2 % p == v1 % p {
      ResidueMeets(x, q, 2, p);
    }
    if v3 % p == v2 % p {
      ResidueMeets(x, q, 3, p);
    }
    assert !FourSteps(x % p, c, p);
  }

  lemma SureDraw(x: u64, q: u64, lim: nat)
    requires x < SURE && 17 <= q <= 32 && lim >= 100
    ensures 1 < RoundOf(x, q, SURE, lim).g < SURE
  {
    hide RoundOf, Meets, Orbit, Anchor;
    assert SURE % 2 == 0;
    RoundStopsSoon(x, q, SURE, lim, 2);
    var j := RoundOf(x, q, SURE, lim).steps;
    StopsAtFirstMeeting(x, q, SURE, lim, j);
    if q % 2 == 0 {
      EvenConstant(x, q, j);
    } else {
      OddConstant(x, q, j);
    }
    assert MeetsProperly(x, q, SURE, lim);
    ProperIsMeeting(x, q, SURE, lim);
  }

  lemma DrawnConstant(rq: u64)
    ensures 17 <= Constant(rq, SURE) <= 32
  {
    hide And;
    AndFifteen(rq);
    DivModUnique(And(rq, 15) + 17, SURE, 0, And(rq, 15) + 17);
  }

  /** 770 is split on every stream, by the first round. */
  lemma AlwaysSplitExample()
    ensures SureRound(770, 0)
    ensures forall rnd: Stream :: Answer(770, rnd).0 > 1 && |Run(770, rnd)| == 1
  {
    hide Draw, Answer, Run;
    assert SureRound(SURE, 0) by {
      forall rx: u64, rq: u64 ensures 1 < Draw(SURE, rx, rq, 0).g < SURE {
        SureFirstDraw(rx, rq);
      }
    }
    forall rnd: Stream ensures Answer(SURE, rnd).0 > 1 && |Run(SURE, rnd)| == 1 {
      SureRoundSplits(SURE, 0, rnd);
      RunBounds(SURE, rnd, 0);
    }
  }

  lemma SureFirstDraw(rx: u64, rq: u64)
    ensures 1 < Draw(SURE, rx, rq, 0).g < SURE
  {
    hide RoundOf, Limit, Constant;
    LimitIsLarge(0);
    DrawnConstant(rq);
    SureDraw(Start(rx, SURE), Constant(rq, SURE), Limit(0));
  }

  // ---------------------------------------------------------------- 113471 can be missed

  const MISSED: u64 := 113471

  /** Before step j of the round from 70142 with constant 19: x is v, y is w, and g was always 1. */
  ghost predicate Before(j: nat, v: nat, w: nat) {
    && 1 <= j
    && v == Iterate(70142, 19, MISSED, j - 1) && w == Iterate(70142, 19, MISSED, Anchor(j))
    && forall k :: 1 <= k < j ==> Test(70142, 19, MISSED, k) == 1
  }

  /** A number with an inverse modulo n has no divisor in common with n. */
  lemma InverseMeansCoprime(z: nat, n: nat, a: nat)
    requires n >= 2 && (a * z) % n == 1
    ensures Gcd(z, n) == 1
  {
    hide Gcd;
    var g := Gcd(z, n);
    GcdIsGreatest(z, n);
    assert z * a == a * z;
    ModMultiply(z, g, a);
    ModOfMod(a * z, n, g);
    DivisorBound(g, n);
    if g > 1 {
      DivModUnique(1, g, 0, 1);
      assert false;
    }
  }

  /** Step j leads from v to v', at distance z from the anchor w, and a inverts z modulo 113471. */
  ghost predicate HopIs(v: nat, w: nat, v': nat, z: nat, a: nat) {
    v' == (19 + v * v) % 113471 && z == (if v' < w then 113471 + v' - w else v' - w) && (a * z) % 113471 == 1
  }

  lemma StepApart(j: nat, v: nat, w: nat, v': nat, z: nat, a: nat)
    requires Before(j, v, w) && HopIs(v, w, v', z, a)
    ensures v' == Iterate(70142, 19, MISSED, j) && Test(70142, 19, MISSED, j) == 1
  {
    hide Gcd, Anchor, Accumulate;
    assert v' == Iterate(70142, 19, MISSED, j) by { AccumulateIsExact(v, v, 19, MISSED); }
    assert Gcd(z, MISSED) == 1 by { InverseMeansCoprime(z, MISSED, a); }
  }

  /** Between a power of two k and its double the anchor stays. */
  lemma AnchorStays(j: nat, k: nat)
    requires IsPow2(k) && k < j < 2 * k
    ensures Anchor(j + 1) == Anchor(j)
  {
    hide Anchor;
    var e: nat :| k == Pow2(e);
    AnchorIsUnique(j, e);
    AnchorIsUnique(j + 1, e);
  }

  /** A step after which the anchor stays. */
  lemma Hop(j: nat, k: nat, v: nat, w: nat, v': nat, z: nat, a: nat)
    requires Before(j, v, w) && HopIs(v, w, v', z, a) && IsPow2(k) && k < j < 2 * k
    ensures Before(j + 1, v', w)
  {
    hide Anchor, HopIs, Test, Iterate, IsPow2;
    StepApart(j, v, w, v', z, a);
    AnchorStays(j, k);
  }

  /** A step after which the anchor moves. */
  lemma HopMove(j: nat, v: nat, w: nat, v': nat, z: nat, a: nat)
    requires Before(j, v, w) && HopIs(v, w, v', z, a) && IsPow2(j)
    ensures Before(j + 1, v', v')
  {
    hide And, Anchor, HopIs, Test, Iterate, IsPow2;
    StepApart(j, v, w, v', z, a);
    AndPredecessor(j);
    AnchorMoves(j);
  }

  lemma PowersOfTwo()
    ensures IsPow2(1) && IsPow2(2) && IsPow2(4) && IsPow2(8) && IsPow2(16) && IsPow2(32) && IsPow2(64)
  {
    assert 1 == Pow2(0) && 2 == Pow2(1) && 4 == Pow2(2) && 8 == Pow2(3);
    assert 16 == Pow2(4) && 32 == Pow2(5) && 64 == Pow2(6);
  }

  lemma Hops0()
    requires Before(1, 70142, 70142)
    ensures Before(8, 69787, 78668)
  {
    hide Before, IsPow2;
    PowersOfTwo();
    assert Before(2, 24565, 24565) by { HopMove(1, 70142, 70142, 24565, 67894, 56555); }
    assert Before(3, 466, 466) by { HopMove(2, 24565, 24565, 466, 89372, 83407); }
    assert Before(4, 103704, 466) by { Hop(3, 2, 466, 466, 103704, 103238, 7873); }
    assert Before(5, 78668, 78668) by { HopMove(4, 103704, 466, 78668, 78202, 105698); }
    assert Before(6, 59374, 78668) by { Hop(5, 4, 78668, 78668, 59374, 94177, 76802); }
    assert Before(7, 68338, 78668) by { Hop(6, 4, 59374, 78668, 68338, 103141, 90634); }
    assert Before(8, 69787, 78668) by { Hop(7, 4, 68338, 78668, 69787, 104590, 19408); }
  }

  lemma Hops1()
    requires Before(8, 69787, 78668)
    ensures Before(15, 19325, 50068)
  {
    hide Before, IsPow2;
    PowersOfTwo();
    assert Before(9, 50068, 50068) by { HopMove(8, 69787, 78668, 50068, 84871, 1710); }
    assert Before(10, 3311, 50068) by { Hop(9, 8, 50068, 50068, 3311, 66714, 91848); }
    assert Before(11, 69524, 50068) by { Hop(10, 8, 3311, 50068, 69524, 19456, 34719); }
    assert Before(12, 62408, 50068) by { Hop(11, 8, 69524, 50068, 62408, 12340, 49370); }
    assert Before(13, 93350, 50068) by { Hop(12, 8, 62408, 50068, 93350, 43282, 40413); }
    assert Before(14, 103603, 50068) by { Hop(13, 8, 93350, 50068, 103603, 53535, 97233); }
    assert Before(15, 19325, 50068) by { Hop(14, 8, 103603, 50068, 19325, 82728, 88092); }
  }

  lemma Hops2()
    requires Before(15, 19325, 50068)
    ensures Before(22, 99219, 53234)
  {
    hide Before, IsPow2;
    PowersOfTwo();
    assert Before(16, 22583, 50068) by { Hop(15, 8, 19325, 50068, 22583, 85986, 86702); }
    assert Before(17, 53234, 53234) by { HopMove(16, 22583, 50068, 53234, 3166, 107629); }
    assert Before(18, 34021, 53234) by { Hop(17, 16, 53234, 53234, 34021, 94258, 79122); }
    assert Before(19, 24260, 53234) by { Hop(18, 16, 34021, 53234, 24260, 84497, 54934); }
    assert Before(20, 87013, 53234) by { Hop(19, 16, 24260, 53234, 87013, 33779, 21630); }
    assert Before(21, 23184, 53234) by { Hop(20, 16, 87013, 53234, 23184, 83421, 28060); }
    assert Before(22, 99219, 53234) by { Hop(21, 16, 23184, 53234, 99219, 45985, 103771); }
  }

  lemma Hops3()
    requires Before(22, 99219, 53234)
    ensures Before(29, 18350, 53234)
  {
    hide Before, IsPow2;
    PowersOfTwo();
    assert Before(23, 6433, 53234) by { Hop(22, 16, 99219, 53234, 6433, 66670, 62495); }
    assert Before(24, 80064, 53234) by { Hop(23, 16, 6433, 53234, 80064, 26830, 99045); }
    assert Before(25, 40383, 53234) by { Hop(24, 16, 80064, 53234, 40383, 100620, 36458); }
    assert Before(26, 94967, 53234) by { Hop(25, 16, 40383, 53234, 94967, 41733, 51269); }
    assert Before(27, 56028, 53234) by { Hop(26, 16, 94967, 53234, 56028, 2794, 65589); }
    assert Before(28, 75059, 53234) by { Hop(27, 16, 56028, 53234, 75059, 21825, 4778); }
    assert Before(29, 18350, 53234) by { Hop(28, 16, 75059, 53234, 18350, 78587, 57025); }
  }

  lemma Hops4()
    requires Before(29, 18350, 53234)
    ensures Before(36, 75623, 96007)
  {
    hide Before, IsPow2;
    PowersOfTwo();
    assert Before(30, 54062, 53234) by { Hop(29, 16, 18350, 53234, 54062, 828, 103741); }
    assert Before(31, 27316, 53234) by { Hop(30, 16, 54062, 53234, 27316, 87553, 20809); }
    assert Before(32, 92050, 53234) by { Hop(31, 16, 27316, 53234, 92050, 38816, 52295); }
    assert Before(33, 96007, 96007) by { HopMove(32, 92050, 53234, 96007, 42773, 15185); }
    assert Before(34, 94738, 96007) by { Hop(33, 32, 96007, 96007, 94738, 112202, 15201); }
    assert Before(35, 72976, 96007) by { Hop(34, 32, 94738, 96007, 72976, 90440, 18530); }
    assert Before(36, 75623, 96007) by { Hop(35, 32, 72976, 96007, 75623, 93087, 56819); }
  }

  lemma Hops5()
    requires Before(36, 75623, 96007)
    ensures Before(43, 9865, 96007)
  {
    hide Before, IsPow2;
    PowersOfTwo();
    assert Before(37, 13219, 96007) by { Hop(36, 32, 75623, 96007, 13219, 30683, 25081); }
    assert Before(38, 110111, 96007) by { Hop(37, 32, 13219, 96007, 110111, 14104, 91274); }
    assert Before(39, 55990, 96007) by { Hop(38, 32, 110111, 96007, 55990, 73454, 80930); }
    assert Before(40, 16802, 96007) by { Hop(39, 32, 55990, 96007, 16802, 34266, 202); }
    assert Before(41, 104846, 96007) by { Hop(40, 32, 16802, 96007, 104846, 8839, 33583); }
    assert Before(42, 67139, 96007) by { Hop(41, 32, 104846, 96007, 67139, 84603, 31756); }
    assert Before(43, 9865, 96007) by { Hop(42, 32, 67139, 96007, 9865, 27329, 74118); }
  }

  lemma Hops6()
    requires Before(43, 9865, 96007)
    ensures Before(50, 28245, 96007)
  {
    hide Before, IsPow2;
    PowersOfTwo();
    assert Before(44, 73597, 96007) by { Hop(43, 32, 9865, 96007, 73597, 91061, 13575); }
    assert Before(45, 93714, 96007) by { Hop(44, 32, 73597, 96007, 93714, 111178, 50624); }
    assert Before(46, 112299, 96007) by { Hop(45, 32, 93714, 96007, 112299, 16292, 13268); }
    assert Before(47, 11951, 96007) by { Hop(46, 32, 112299, 96007, 11951, 29415, 94970); }
    assert Before(48, 79902, 96007) by { Hop(47, 32, 11951, 96007, 79902, 97366, 65215); }
    assert Before(49, 110750, 96007) by { Hop(48, 32, 79902, 96007, 110750, 14743, 3171); }
    assert Before(50, 28245, 96007) by { Hop(49, 32, 110750, 96007, 28245, 45709, 70008); }
  }

  lemma Hops7()
    requires Before(50, 28245, 96007)
    ensures Before(57, 110111, 96007)
  {
    hide Before, IsPow2;
    PowersOfTwo();
    assert Before(51, 78914, 96007) by { Hop(50, 32, 28245, 96007, 78914, 96378, 23447); }
    assert Before(52, 17464, 96007) by { Hop(51, 32, 78914, 96007, 17464, 34928, 98972); }
    assert Before(53, 94738, 96007) by { Hop(52, 32, 17464, 96007, 94738, 112202, 15201); }
    assert Before(54, 72976, 96007) by { Hop(53, 32, 94738, 96007, 72976, 90440, 18530); }
    assert Before(55, 75623, 96007) by { Hop(54, 32, 72976, 96007, 75623, 93087, 56819); }
    assert Before(56, 13219, 96007) by { Hop(55, 32, 75623, 96007, 13219, 30683, 25081); }
    assert Before(57, 110111, 96007) by { Hop(56, 32, 13219, 96007, 110111, 14104, 91274); }
  }

  lemma Hops8()
    requires Before(57, 110111, 96007)
    ensures Before(64, 93714, 96007)
  {
    hide Before, IsPow2;
    PowersOfTwo();
    assert Before(58, 55990, 96007) by { Hop(57, 32, 110111, 96007, 55990, 73454, 80930); }
    assert Before(59, 16802, 96007) by { Hop(58, 32, 55990, 96007, 16802, 34266, 202); }
    assert Before(60, 104846, 96007) by { Hop(59, 32, 16802, 96007, 104846, 8839, 33583); }
    assert Before(61, 67139, 96007) by { Hop(60, 32, 104846, 96007, 67139, 84603, 31756); }
    assert Before(62, 9865, 96007) by { Hop(61, 32, 67139, 96007, 9865, 27329, 74118); }
    assert Before(63, 73597, 96007) by { Hop(62, 32, 9865, 96007, 73597, 91061, 13575); }
    assert Before(64, 93714, 96007) by { Hop(63, 32, 73597, 96007, 93714, 111178, 50624); }
  }

  lemma Hops9()
    requires Before(64, 93714, 96007)
    ensures Before(71, 17464, 112299)
  {
    hide Before, IsPow2;
    PowersOfTwo();
    assert Before(65, 112299, 112299) by { HopMove(64, 93714, 96007, 112299, 16292, 13268); }
    assert Before(66, 11951, 112299) by { Hop(65, 64, 112299, 112299, 11951, 13123, 35270); }
    assert Before(67, 79902, 112299) by { Hop(66, 64, 11951, 112299, 79902, 81074, 73791); }
    assert Before(68, 110750, 112299) by { Hop(67, 64, 79902, 112299, 110750, 111922, 21024); }
    assert Before(69, 28245, 112299) by { Hop(68, 64, 110750, 112299, 28245, 29417, 26874); }
    assert Before(70, 78914, 112299) by { Hop(69, 64, 28245, 112299, 78914, 80086, 63902); }
    assert Before(71, 17464, 112299) by { Hop(70, 64, 78914, 112299, 17464, 18636, 6582); }
  }

  lemma Hops10()
    requires Before(71, 17464, 112299)
    ensures Before(78, 16802, 112299)
  {
    hide Before, IsPow2;
    PowersOfTwo();
    assert Before(72, 94738, 112299) by { Hop(71, 64, 17464, 112299, 94738, 95910, 113387); }
    assert Before(73, 72976, 112299) by { Hop(72, 64, 94738, 112299, 72976, 74148, 109359); }
    assert Before(74, 75623, 112299) by { Hop(73, 64, 72976, 112299, 75623, 76795, 69770); }
    assert Before(75, 13219, 112299) by { Hop(74, 64, 75623, 112299, 13219, 14391, 89777); }
    assert Before(76, 110111, 112299) by { Hop(75, 64, 13219, 112299, 110111, 111283, 104914); }
    assert Before(77, 55990, 112299) by { Hop(76, 64, 110111, 112299, 55990, 57162, 20619); }
    assert Before(78, 16802, 112299) by { Hop(77, 64, 55990, 112299, 16802, 17974, 55334); }
  }

  lemma Hops11()
    requires Before(78, 16802, 112299)
    ensures Before(83, 93714, 112299)
  {
    hide Before, IsPow2;
    PowersOfTwo();
    assert Before(79, 104846, 112299) by { Hop(78, 64, 16802, 112299, 104846, 106018, 64386); }
    assert Before(80, 67139, 112299) by { Hop(79, 64, 104846, 112299, 67139, 68311, 45607); }
    assert Before(81, 9865, 112299) by { Hop(80, 64, 67139, 112299, 9865, 11037, 79770); }
    assert Before(82, 73597, 112299) by { Hop(81, 64, 9865, 112299, 73597, 74769, 64939); }
    assert Before(83, 93714, 112299) by { Hop(82, 64, 73597, 112299, 93714, 94886, 36975); }
  }

  lemma StartOfHops()
    ensures Before(1, 70142, 70142)
  {
  }

  lemma AllHops()
    ensures Before(83, 93714, 112299)
  {
    hide Before;
    StartOfHops();
    Hops0();
    Hops1();
    Hops2();
    Hops3();
    Hops4();
    Hops5();
    Hops6();
    Hops7();
    Hops8();
    Hops9();
    Hops10();
    Hops11();
  }

  lemma LastHop(j: nat, v: nat, w: nat)
    requires Before(j, v, w) && w == (19 + v * v) % MISSED
    ensures Test(70142, 19, MISSED, j) == MISSED
  {
    hide Test, Anchor, Accumulate;
    AccumulateIsExact(v, v, 19, MISSED);
    WholeTest(70142, 19, MISSED, j);
  }

  /** Step 83 closes the cycle modulo both factors at once. */
  lemma MissedRound(lim: nat)
    requires lim > 83
    ensures RoundOf(70142, 19, MISSED, lim) == Round(MISSED, 83)
  {
    hide RoundOf, Test, Iterate, Anchor;
    AllHops();
    LastHop(83, 93714, 112299);
    RoundIsFirst(70142, 19, MISSED, lim);
  }

  /** Streams of the same numbers lead to the same rounds and the same answer. */
  lemma SameStream(pq: u64, rnd: Stream, rnd': Stream)
    requires pq >= 2 && forall n: nat :: rnd(n) == rnd'(n)
    ensures |Run(pq, rnd)| == |Run(pq, rnd')| && Answer(pq, rnd) == Answer(pq, rnd')
  {
    hide RoundOf, Start, Constant, Limit, Answer, TotalSteps;
    var all, all' := AllRounds(pq, rnd), AllRounds(pq, rnd');
    forall i: nat ensures all(i) == all'(i) {
      assert all(i) == RoundAt(pq, rnd, i) && all'(i) == RoundAt(pq, rnd', i);
    }
    SameOutcomes(pq, all, all', 0, 0);
    SameAnswer(pq, rnd, rnd');
  }

  lemma SameAnswer(pq: u64, rnd: Stream, rnd': Stream)
    requires pq >= 2 && Run(pq, rnd) == Run(pq, rnd')
    ensures Answer(pq, rnd) == Answer(pq, rnd')
  {
    hide Rounds, Limit, RoundAt, TotalSteps;
    var i := FinalIndex(pq, AllRounds(pq, rnd));
    assert AllRounds(pq, rnd)(i) == RoundAt(pq, rnd, i);
    assert AllRounds(pq, rnd')(i) == RoundAt(pq, rnd', i);
  }

  lemma RoundsUnfold(pq: nat, f: Outcomes, i: nat, iter: nat)
    ensures Rounds(pq, f, i, iter)
            == if !(i < 3 || iter < 1000) then []
               else if 1 < f(i).g < pq then [f(i)]
               else [f(i)] + Rounds(pq, f, i + 1, iter + f(i).steps)
  {
  }

  lemma {:induction false} SameOutcomes(pq: nat, f: Outcomes, f': Outcomes, i: nat, iter: nat)
    requires forall n: nat :: f(n) == f'(n)
    ensures Rounds(pq, f, i, iter) == Rounds(pq, f', i, iter)
    decreases (if i < 3 then 3 - i else 0) + (if iter < 1000 then 1000 - iter else 0)
  {
    hide Rounds;
    RoundsUnfold(pq, f, i, iter);
    RoundsUnfold(pq, f', i, iter);
    if (i < 3 || iter < 1000) && !(1 < f(i).g < pq) {
      SameOutcomes(pq, f, f', i + 1, iter + f(i).steps);
    }
  }

  lemma MissedOnRepeated()
    ensures var rnd := Repeated(70141, 2); |Run(MISSED, rnd)| <= 13 && Answer(MISSED, rnd) == (1, MISSED)
    ensures !IsPrime(MISSED)
  {
    hide RoundOf, Run, Answer, Limit;
    assert MISSED % 233 == 0;
    assert Constant(2, MISSED) == 19 by { ConstantFrom(2, MISSED); }
    assert Start(70141, MISSED) == 70142;
    LimitIsLarge(0);
    MissedRound(Limit(0));
    assert Draw(MISSED, 70141, 2, 0) == Round(MISSED, 83);
    RepeatedWholeDraw(MISSED, 70141, 2);
    RepeatedLongDraw(MISSED, 70141, 2);
    AnswerIsFactoring(MISSED, Repeated(70141, 2));
  }

  /**
   The composite 113471 with the random numbers 2 and 70141 in turn: thirteen rounds of 83 steps,
   every shift defined, and the answer is (1, 113471).
   */
  lemma CompositeMissedInRange()
    ensures forall rnd: Stream :: (forall n: nat :: rnd(n) == if n % 2 == 0 then 2 else 70141) ==>
              |Run(113471, rnd)| <= 13 && Answer(113471, rnd) == (1, 113471)
    ensures !IsPrime(113471)
  {
    hide Run, Answer;
    MissedOnRepeated();
    forall rnd: Stream | forall n: nat :: rnd(n) == if n % 2 == 0 then 2 else 70141
      ensures |Run(MISSED, rnd)| <= 13 && Answer(MISSED, rnd) == (1, MISSED)
    {
      SameStream(MISSED, rnd, Repeated(70141, 2));
    }
  }
}
