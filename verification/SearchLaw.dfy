/**
 The search of decompose_64bit in src/math.c for pq <= 2^63, said without its code: a round as the
 points it visits and the points it compares them with, the whole search as its rounds. The law
 leaves no choice: a round, and a search, is determined by its numbers.
 */
module SearchLaw {
  import opened Arith
  import opened Euclid
  import opened Restart
  import opened Rho

  /**
   A round from x with constant q: v are the points visited, w[j] is the point compared with v[j].
   It stops at the first step at which the two agree modulo a divisor of pq greater than 1, and
   its g is the greatest such divisor; or it comes to its limit, with g == 1.
   */
  ghost predicate IsRound(pq: nat, x: nat, q: nat, lim: nat, r: Round, v: seq<nat>, w: seq<nat>)
    requires pq > 0
  {
    && r.steps < lim && |v| == |w| == r.steps + 1
    && v[0] == x && w[1] == x
    && (forall j :: 0 <= j < r.steps ==> v[j + 1] == (v[j] * v[j] + q) % pq)
    && (forall j :: 1 <= j < r.steps ==> w[j + 1] == if IsPow2(j) then v[j] else w[j])
    && (forall j :: 1 <= j < r.steps ==> !AgreeModuloDivisor(v[j], w[j], pq))
    && (forall d: nat :: 0 < d ==> (r.g % d == 0 <==> pq % d == 0 && v[r.steps] % d == w[r.steps] % d))
    && (r.g == 1 ==> r.steps == lim - 1)
  }

  /** The g of step j is the greatest divisor of pq modulo which the two points agree. */
  lemma TestIsGreatest(x: u64, q: u64, pq: u64, j: nat, d: nat)
    requires x < pq && q < pq && d > 0
    ensures Test(x, q, pq, j) % d == 0
            <==> pq % d == 0 && Iterate(x, q, pq, j) % d == Iterate(x, q, pq, Anchor(j)) % d
  {
    hide Gcd, Iterate, Anchor, Gap;
    var u, v := Iterate(x, q, pq, j), Iterate(x, q, pq, Anchor(j));
    CommonDivisors(Gap(u, v, pq), pq, d);
    if pq % d == 0 {
      GapDivisor(u, v, pq, d);
    }
  }

  lemma AnchorFollows(j: nat)
    requires j >= 1
    ensures Anchor(1) == 0 && Anchor(j + 1) == if IsPow2(j) then j else Anchor(j)
  {
    hide And;
    AndPredecessor(j);
    AnchorMoves(j);
  }

  /** Every round of the code obeys the law. */
  lemma RoundObeys(pq: u64, x: u64, q: u64, lim: nat) returns (v: seq<nat>, w: seq<nat>)
    requires x < pq && q < pq && 2 <= pq <= TWO_63 && 2 <= lim
    ensures IsRound(pq, x, q, lim, RoundOf(x, q, pq, lim), v, w)
  {
    hide Test, Iterate, Anchor, RoundOf, Orbit, AgreeModuloDivisor;
    var r := RoundOf(x, q, pq, lim);
    RoundIsFirst(x, q, pq, lim);
    v := seq(r.steps + 1, j requires 0 <= j <= r.steps => Orbit(x, q, pq, j));
    w := seq(r.steps + 1, j requires 0 <= j <= r.steps => Orbit(x, q, pq, Anchor(j)));
    AnchorFollows(1);
    OrbitStarts(x, q, pq);
    forall j | 0 <= j < r.steps ensures v[j + 1] == (v[j] * v[j] + q) % pq {
      OrbitGoesOn(x, q, pq, j);
    }
    forall j | 1 <= j < r.steps ensures w[j + 1] == if IsPow2(j) then v[j] else w[j] {
      AnchorFollows(j);
    }
    forall j | 1 <= j < r.steps ensures !AgreeModuloDivisor(v[j], w[j], pq) {
      TestIsMeeting(x, q, pq, j);
    }
    forall d: nat | 0 < d
      ensures r.g % d == 0 <==> pq % d == 0 && v[r.steps] % d == w[r.steps] % d
    {
      TestIsGreatest(x, q, pq, r.steps, d);
      IterateIsOrbit(x, q, pq, r.steps);
      IterateIsOrbit(x, q, pq, Anchor(r.steps));
    }
  }

  lemma OrbitStarts(x: nat, q: nat, pq: nat)
    requires pq > 0
    ensures Orbit(x, q, pq, 0) == x
  {
  }

  lemma OrbitGoesOn(x: nat, q: nat, pq: nat, j: nat)
    requires pq > 0
    ensures var u := Orbit(x, q, pq, j); Orbit(x, q, pq, j + 1) == (u * u + q) % pq
  {
  }

  // ---------------------------------------------------------------- one round only

  lemma {:induction false} SamePoints(pq: nat, x: nat, q: nat, lim: nat, r: Round, v: seq<nat>, w: seq<nat>,
                                      r': Round, v': seq<nat>, w': seq<nat>, j: nat)
    requires pq > 0 && IsRound(pq, x, q, lim, r, v, w) && IsRound(pq, x, q, lim, r', v', w')
    requires j <= r.steps && j <= r'.steps
    ensures v[j] == v'[j] && (j > 0 ==> w[j] == w'[j])
  {
    hide AgreeModuloDivisor, IsPow2;
    if j == 0 {
    } else {
      SamePoints(pq, x, q, lim, r, v, w, r', v', w', j - 1);
      var i := j - 1;
      assert v[i + 1] == (v[i] * v[i] + q) % pq && v'[i + 1] == (v'[i] * v'[i] + q) % pq;
      if i > 0 {
        assert w[i + 1] == if IsPow2(i) then v[i] else w[i];
        assert w'[i + 1] == if IsPow2(i) then v'[i] else w'[i];
      }
    }
  }

  lemma NoEarlierEnd(pq: nat, x: nat, q: nat, lim: nat, r: Round, v: seq<nat>, w: seq<nat>,
                     r': Round, v': seq<nat>, w': seq<nat>)
    requires pq > 0 && IsRound(pq, x, q, lim, r, v, w) && IsRound(pq, x, q, lim, r', v', w')
    ensures r.steps >= r'.steps
  {
    if r.steps < r'.steps {
      SamePoints(pq, x, q, lim, r, v, w, r', v', w', r.steps);
      GIsPositive(pq, x, q, lim, r, v, w);
      ModOfMultiple(r.g, 1);
      assert false;
    }
  }

  lemma GIsPositive(pq: nat, x: nat, q: nat, lim: nat, r: Round, v: seq<nat>, w: seq<nat>)
    requires pq > 0 && IsRound(pq, x, q, lim, r, v, w)
    ensures r.g > 0
  {
    if r.g == 0 {
      var d := pq + 1;
      DivModUnique(0, d, 0, 0);
      DivModUnique(pq, d, 0, pq);
      assert false;
    }
  }

  /** The law determines the round. */
  lemma RoundIsDetermined(pq: nat, x: nat, q: nat, lim: nat, r: Round, v: seq<nat>, w: seq<nat>,
                          r': Round, v': seq<nat>, w': seq<nat>)
    requires pq > 0 && IsRound(pq, x, q, lim, r, v, w) && IsRound(pq, x, q, lim, r', v', w')
    ensures r == r'
  {
    NoEarlierEnd(pq, x, q, lim, r, v, w, r', v', w');
    NoEarlierEnd(pq, x, q, lim, r', v', w', r, v, w);
    SamePoints(pq, x, q, lim, r, v, w, r', v', w', r.steps);
    GIsPositive(pq, x, q, lim, r, v, w);
    GIsPositive(pq, x, q, lim, r', v', w');
    ModOfMultiple(r.g, 1);
    ModOfMultiple(r'.g, 1);
    assert r.g % r'.g == 0 && r'.g % r.g == 0;
    DivisorBound(r.g, r'.g);
    DivisorBound(r'.g, r.g);
  }

  // ---------------------------------------------------------------- the search

  /** Round i with its two random numbers: the first gives the constant, the second the start. */
  ghost predicate IsDrawnRound(pq: nat, rq: nat, rx: nat, i: nat, r: Round)
    requires pq >= 2
  {
    exists x, q, lim, v, w ::
      && x == rx % (pq - 1) + 1 && q == (rq % 16 + 17) % pq && lim == Pow2(i + 18)
      && IsRound(pq, x, q, lim, r, v, w)
  }

  /**
   The rounds of a search over the random numbers rnd: each is made because i < 3 or fewer than
   1000 steps have been made, and the last one finds a proper divisor or uses these up.
   */
  ghost predicate IsSearch(pq: nat, rnd: nat -> u64, rs: seq<Round>)
    requires pq >= 2
  {
    && (forall i :: 0 <= i < |rs| ==> IsDrawnRound(pq, rnd(2 * i), rnd(2 * i + 1), i, rs[i]))
    && (forall i :: 0 <= i < |rs| ==> i < 3 || TotalSteps(rs[..i]) < 1000)
    && (forall i :: 0 <= i < |rs| - 1 ==> !(1 < rs[i].g < pq))
    && rs != [] && (1 < rs[|rs| - 1].g < pq || (|rs| >= 3 && TotalSteps(rs) >= 1000))
  }

  lemma RoundOfSearch(pq: nat, rnd: nat -> u64, rs: seq<Round>, i: nat)
    requires pq >= 2 && IsSearch(pq, rnd, rs) && i < |rs|
    ensures IsDrawnRound(pq, rnd(2 * i), rnd(2 * i + 1), i, rs[i])
  {
    hide IsDrawnRound, TotalSteps;
  }

  lemma {:induction false} SameRounds(pq: nat, rnd: nat -> u64, rs: seq<Round>, rs': seq<Round>, n: nat)
    requires pq >= 2 && IsSearch(pq, rnd, rs) && IsSearch(pq, rnd, rs') && n <= |rs| && n <= |rs'|
    ensures rs[..n] == rs'[..n]
  {
    hide IsSearch, IsDrawnRound;
    if n == 0 {
    } else {
      SameRounds(pq, rnd, rs, rs', n - 1);
      var i := n - 1;
      RoundOfSearch(pq, rnd, rs, i);
      RoundOfSearch(pq, rnd, rs', i);
      DrawnRoundIsDetermined(pq, rnd(2 * i), rnd(2 * i + 1), i, rs[i], rs'[i]);
      assert rs[..n] == rs[..i] + [rs[i]] && rs'[..n] == rs'[..i] + [rs'[i]];
    }
  }

  lemma DrawnRoundIsDetermined(pq: nat, rq: nat, rx: nat, i: nat, r: Round, r': Round)
    requires pq >= 2 && IsDrawnRound(pq, rq, rx, i, r) && IsDrawnRound(pq, rq, rx, i, r')
    ensures r == r'
  {
    hide IsRound;
    var x, q, lim, v, w :|
      && x == rx % (pq - 1) + 1 && q == (rq % 16 + 17) % pq && lim == Pow2(i + 18)
      && IsRound(pq, x, q, lim, r, v, w);
    var x', q', lim', v', w' :|
      && x' == rx % (pq - 1) + 1 && q' == (rq % 16 + 17) % pq && lim' == Pow2(i + 18)
      && IsRound(pq, x', q', lim', r', v', w');
    RoundIsDetermined(pq, x, q, lim, r, v, w, r', v', w');
  }

  lemma NotLonger(pq: nat, rnd: nat -> u64, rs: seq<Round>, rs': seq<Round>)
    requires pq >= 2 && IsSearch(pq, rnd, rs) && IsSearch(pq, rnd, rs')
    ensures |rs| >= |rs'|
  {
    hide TotalSteps, IsDrawnRound;
    var n := |rs|;
    assert rs[..n] == rs;
    if n < |rs'| {
      SameRounds(pq, rnd, rs, rs', n);
      assert false;
    }
  }

  /** The law determines the search. */
  lemma SearchIsDetermined(pq: nat, rnd: nat -> u64, rs: seq<Round>, rs': seq<Round>)
    requires pq >= 2 && IsSearch(pq, rnd, rs) && IsSearch(pq, rnd, rs')
    ensures rs == rs'
  {
    hide TotalSteps, IsSearch;
    NotLonger(pq, rnd, rs, rs');
    NotLonger(pq, rnd, rs', rs);
    SameRounds(pq, rnd, rs, rs', |rs|);
  }
}
