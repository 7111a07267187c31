/**
 The double-and-add loop of src/math.c: x*x + q modulo pq with no 128-bit intermediate.
 All additions are the wrapping additions of uint64_t.
 */
module ModSquare {
  import opened Arith

  /** s += a; if (s >= pq) s -= pq; */
  function AddReduce(s: u64, a: u64, pq: u64): (r: u64)
    ensures s < pq && a < pq ==> r < pq
    ensures s < pq && a < pq && s + a < TWO_64 ==> r == if s + a < pq then s + a else s + a - pq
    ensures s < pq && a < pq && s + a >= TWO_64 ==> r == s + a - TWO_64
  {
    var t := Add64(s, a);
    if t >= pq then t - pq else t
  }

  /** The value of c when the loop ends, from any a, b and c. */
  function Accumulate(a: u64, b: u64, c: u64, pq: u64): (r: u64)
    requires a < pq && c < pq
    ensures r < pq
    decreases b
  {
    if b == 0 then c
    else Accumulate(AddReduce(a, a, pq), b / 2, if b % 2 == 1 then AddReduce(c, a, pq) else c, pq)
  }

  /** No addition made by the loop from a, b and c exceeds 64 bits. */
  predicate NoWrap(a: u64, b: u64, c: u64, pq: u64)
    requires a < pq && c < pq
    decreases b
  {
    b == 0 ||
    (&& (b % 2 == 1 ==> c + a < TWO_64)
     && a + a < TWO_64
     && NoWrap(AddReduce(a, a, pq), b / 2, if b % 2 == 1 then AddReduce(c, a, pq) else c, pq))
  }

  /** The product by b from the product by b / 2. */
  lemma HalfProduct(a: int, b: nat)
    ensures a * b == 2 * (a * (b / 2)) + if b % 2 == 1 then a else 0
  {
    var h := b / 2;
    if b % 2 == 1 {
      assert a * b == a * (2 * h + 1);
    } else {
      assert a * b == a * (2 * h);
    }
  }

  /** One turn keeps c + a*b modulo pq: a' and c' differ from 2a and c + a by multiples of pq. */
  lemma TurnKeepsValue(a: int, b: nat, c: int, pq: nat, a': int, c': int, e: int, f: int)
    requires pq > 0
    requires a' == 2 * a - pq * e
    requires c' == (if b % 2 == 1 then c + a else c) - pq * f
    ensures (c' + a' * (b / 2)) % pq == (c + a * b) % pq
  {
    var h := b / 2;
    HalfProduct(a, b);
    var k := -(f + e * h);
    assert a' * h == 2 * (a * h) - pq * (e * h);
    assert pq * k == -(pq * f) - pq * (e * h);
    assert c' + a' * h == c + a * b + pq * k;
    ModShift(c + a * b, pq, k);
  }

  /** For every modulus: as long as no addition wraps, the loop computes c + a*b modulo pq. */
  lemma {:induction false} ExactUnlessWrapping(a: u64, b: u64, c: u64, pq: u64)
    requires a < pq && c < pq && NoWrap(a, b, c, pq)
    ensures Accumulate(a, b, c, pq) == (c + a * b) % pq
    decreases b
  {
    if b == 0 {
      DivModUnique(c, pq, 0, c);
    } else {
      var a' := AddReduce(a, a, pq);
      var c' := if b % 2 == 1 then AddReduce(c, a, pq) else c;
      ExactUnlessWrapping(a', b / 2, c', pq);
      TurnKeepsValue(a, b, c, pq, a', c',
                     if a + a < pq then 0 else 1,
                     if b % 2 == 1 && c + a >= pq then 1 else 0);
    }
  }

  /** Up to 2^63 nothing wraps: two residues add up to less than 2^64. */
  lemma {:induction false} NothingWraps(a: u64, b: u64, c: u64, pq: u64)
    requires a < pq <= TWO_63 && c < pq
    ensures NoWrap(a, b, c, pq)
    decreases b
  {
    if b > 0 {
      NothingWraps(AddReduce(a, a, pq), b / 2, if b % 2 == 1 then AddReduce(c, a, pq) else c, pq);
    }
  }

  lemma AccumulateIsExact(a: u64, b: u64, c: u64, pq: u64)
    requires a < pq <= TWO_63 && c < pq
    ensures Accumulate(a, b, c, pq) == (c + a * b) % pq
    ensures NoWrap(a, b, c, pq)
  {
    hide Accumulate, NoWrap;
    NothingWraps(a, b, c, pq);
    ExactUnlessWrapping(a, b, c, pq);
  }

  /** Once a is zero, the loop leaves c alone. */
  lemma {:induction false} ZeroStaysZero(b: u64, c: u64, pq: u64)
    requires c < pq
    ensures Accumulate(0, b, c, pq) == c
    decreases b
  {
    if b == 0 {
    } else {
      assert AddReduce(0, 0, pq) == 0;
      assert AddReduce(c, 0, pq) == c;
      ZeroStaysZero(b / 2, c, pq);
    }
  }

  lemma Pow2Wide()
    ensures Pow2(63) == TWO_63 && Pow2(64) == TWO_64
  {
    Pow2Values();
    assert Pow2(32) == 2 * Pow2(31);
    Pow2Add(31, 32);
    assert Pow2(64) == 2 * Pow2(63);
  }

  lemma Pow126(x: nat)
    requires x == TWO_63
    ensures x * x == Pow2(126)
  {
    hide Pow2;
    Pow2Wide();
    Pow2Add(63, 63);
  }

  /**
   Above 2^63 the loop goes wrong for every q: it adds nothing for the square of x = 2^63,
   although pq does not divide 2^126.
   */
  lemma WideModulusIsWrong(x: u64, q: u64, pq: u64)
    requires x == TWO_63 < pq && q < pq
    ensures Accumulate(x, x, q, pq) != (q + x * x) % pq
    ensures !NoWrap(x, x, q, pq)
  {
    hide Accumulate, NoWrap;
    LosesTheSquare(x, q, pq);
    SquareIsNotWhole(x, pq);
    AddNonMultiple(q, x * x, pq);
  }

  lemma LosesTheSquare(x: u64, q: u64, pq: u64)
    requires x == TWO_63 < pq && q < pq
    ensures Accumulate(x, x, q, pq) == q && !NoWrap(x, x, q, pq)
  {
    assert AddReduce(x, x, pq) == 0;
    ZeroStaysZero(x / 2, q, pq);
  }

  lemma AddNonMultiple(q: nat, n: nat, pq: nat)
    requires q < pq && n % pq != 0
    ensures (q + n) % pq != q
  {
    DivModUnique(q, pq, 0, q);
    SameRemainder(q + n, q, pq);
  }

  lemma SquareIsNotWhole(x: nat, pq: nat)
    requires x == TWO_63 < pq < TWO_64
    ensures (x * x) % pq != 0
  {
    Pow126(x);
    if (x * x) % pq == 0 {
      DivisorOfPow2(pq, 126);
      NoPowerBetween(pq);
      assert false;
    }
  }

  lemma NoPowerBetween(n: nat)
    requires IsPow2(n)
    ensures !(TWO_63 < n < TWO_64)
  {
    hide Pow2;
    Pow2Wide();
    var k: nat :| n == Pow2(k);
    if k <= 63 {
      Pow2Monotonic(k, 63);
    } else {
      Pow2Monotonic(64, k);
    }
  }

  ghost predicate AlwaysExact(pq: u64) {
    forall x: u64, q: u64 | x < pq && q < pq :: Accumulate(x, x, q, pq) == (q + x * x) % pq
  }

  ghost predicate NeverWraps(pq: u64) {
    forall x: u64, q: u64 | x < pq && q < pq :: NoWrap(x, x, q, pq)
  }

  /** The constants that decompose_64bit draws, before they are reduced. */
  predicate Drawn(q: nat) {
    17 <= q <= 32
  }

  /** Exact, and free of wrapping, for the drawn constants at least. */
  ghost predicate ExactForDrawn(pq: u64) {
    forall x: u64, q: u64 | x < pq && q < pq && Drawn(q) ::
      Accumulate(x, x, q, pq) == (q + x * x) % pq && NoWrap(x, x, q, pq)
  }

  /**
   2^63 is the exact bound, for the value of the loop and for its additions, whether all constants
   are considered or only those that the code draws.
   */
  lemma ExactBound(pq: u64)
    requires pq > 0
    ensures AlwaysExact(pq) <==> pq <= TWO_63
    ensures NeverWraps(pq) <==> pq <= TWO_63
    ensures ExactForDrawn(pq) <==> pq <= TWO_63
  {
    hide Accumulate, NoWrap;
    if pq <= TWO_63 {
      forall x: u64, q: u64 | x < pq && q < pq
        ensures Accumulate(x, x, q, pq) == (q + x * x) % pq && NoWrap(x, x, q, pq)
      {
        AccumulateIsExact(x, x, q, pq);
      }
    } else {
      var x: u64, q: u64 :| x == TWO_63 && q == 17;
      WideModulusIsWrong(x, q, pq);
      assert Drawn(q);
    }
  }

  /** One turn of the loop, in the order of the code. */
  lemma TurnOfSquare(a: u64, b: u64, c: u64, pq: u64)
    requires a < pq && c < pq && b != 0
    ensures var c' := if And(b, 1) != 0 then AddReduce(c, a, pq) else c;
            var a' := AddReduce(a, a, pq);
            c' < pq && a' < pq && Accumulate(a', b / 2, c', pq) == Accumulate(a, b, c, pq)
  {
    hide And;
    AndOne(b);
  }

  lemma AccumulateEnds(a: u64, c: u64, pq: u64)
    requires a < pq && c < pq
    ensures Accumulate(a, 0, c, pq) == c
  {
  }

  lemma AddReduceUnfolds(s: u64, a: u64, pq: u64)
    ensures AddReduce(s, a, pq) == var t := Add64(s, a); if t >= pq then t - pq else t
  {
  }

  /** The innermost loop of decompose_64bit. */
  method SquarePlus(x: u64, q: u64, pq: u64) returns (c: u64)
    requires x < pq && q < pq
    ensures c == Accumulate(x, x, q, pq) < pq
    ensures pq <= TWO_63 ==> c == (q + x * x) % pq
  {
    hide *;
    var a: u64, b: u64 := x, x;
    c := q;
    while b != 0
      invariant a < pq && c < pq
      invariant Accumulate(a, b, c, pq) == Accumulate(x, x, q, pq)
      decreases b
    {
      TurnOfSquare(a, b, c, pq);
      AddReduceUnfolds(c, a, pq);
      AddReduceUnfolds(a, a, pq);
      if And(b, 1) != 0 {
        c := Add64(c, a);
        if c >= pq {
          c := c - pq;
        }
      }
      a := Add64(a, a);
      if a >= pq {
        a := a - pq;
      }
      b := b / 2;
    }
    AccumulateEnds(a, c, pq);
    if pq <= TWO_63 {
      AccumulateIsExact(x, x, q, pq);
    }
  }
}
