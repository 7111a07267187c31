/**
 Arithmetic shared by the models: the widths of the C types, powers of two, remainders, and the
 bitwise AND.
 */
module Arith {

  const TWO_31: nat := 0x8000_0000
  const TWO_32: nat := 0x1_0000_0000
  const TWO_63: nat := 0x8000_0000_0000_0000
  const TWO_64: nat := 0x1_0000_0000_0000_0000

  /** uint8_t */
  type byte = n: nat | n < 256

  /** uint32_t */
  type u32 = n: nat | n < TWO_32

  /** uint64_t */
  type u64 = n: nat | n < TWO_64

  /** Addition on uint64_t, which wraps. */
  function Add64(a: u64, b: u64): (r: u64)
    ensures r == if a + b < TWO_64 then a + b else a + b - TWO_64
  {
    (a + b) % TWO_64
  }

  /** Subtraction on uint64_t, which wraps. */
  function Sub64(a: u64, b: u64): (r: u64)
    ensures b <= a ==> r == a - b
    ensures a < b ==> r == TWO_64 + a - b
  {
    (a - b) % TWO_64
  }

  /** Multiplication on uint64_t, which wraps. */
  function Mul64(a: u64, b: u64): (r: u64)
    ensures a * b < TWO_64 ==> r == a * b
  {
    (a * b) % TWO_64
  }

  function Pow2(n: nat): (r: nat)
    ensures r >= 1
  {
    if n == 0 then 1 else 2 * Pow2(n - 1)
  }

  lemma {:induction false} Pow2Add(a: nat, b: nat)
    ensures Pow2(a + b) == Pow2(a) * Pow2(b)
  {
    if b == 0 {
    } else {
      Pow2Add(a, b - 1);
      assert Pow2(a + b) == 2 * Pow2(a + (b - 1));
    }
  }

  lemma {:induction false} Pow2Monotonic(a: nat, b: nat)
    requires a <= b
    ensures Pow2(a) <= Pow2(b)
  {
    if a < b {
      Pow2Monotonic(a, b - 1);
    }
  }

  lemma Pow2Values()
    ensures Pow2(13) == 0x2000 && Pow2(18) == 0x4_0000 && Pow2(20) == 0x10_0000
    ensures Pow2(31) == TWO_31
  {
    assert Pow2(10) == 0x400;
    assert Pow2(13) == 0x2000;
    assert Pow2(18) == 0x4_0000;
    assert Pow2(20) == 0x10_0000;
    assert Pow2(26) == 0x400_0000;
    assert Pow2(31) == TWO_31;
  }

  // ---------------------------------------------------------------- remainders

  lemma MultipleOutside(d: nat, e: int)
    ensures e >= 1 ==> d * e >= d
    ensures e <= -1 ==> d * e <= 0 - d
  {
  }

  /** A quotient and a remainder in range are the quotient and the remainder. */
  lemma DivModUnique(n: int, d: nat, k: int, r: int)
    requires d > 0 && n == d * k + r && 0 <= r < d
    ensures n % d == r && n / d == k
  {
    var e := k - n / d;
    assert d * e == n % d - r by {
      assert n == d * (n / d) + n % d;
      assert d * e == d * k - d * (n / d);
    }
    MultipleOutside(d, e);
  }

  lemma ModShift(n: int, d: nat, k: int)
    requires d > 0
    ensures (n + d * k) % d == n % d
  {
    assert n + d * k == d * (n / d + k) + n % d;
    DivModUnique(n + d * k, d, n / d + k, n % d);
  }

  lemma ModOfMultiple(d: nat, k: int)
    requires d > 0
    ensures (d * k) % d == 0
  {
    DivModUnique(d * k, d, k, 0);
  }

  lemma ModMultiply(n: int, d: nat, k: int)
    requires d > 0 && n % d == 0
    ensures (n * k) % d == 0
  {
    assert n == d * (n / d);
    assert n * k == d * (n / d * k);
    ModOfMultiple(d, n / d * k);
  }

  lemma ModSum(a: int, b: int, d: nat)
    requires d > 0 && b % d == 0
    ensures (a + b) % d == a % d
  {
    assert b == d * (b / d);
    ModShift(a, d, b / d);
  }

  /** Two numbers have the same remainder exactly when their difference has none. */
  lemma SameRemainder(a: int, b: int, d: nat)
    requires d > 0
    ensures a % d == b % d <==> (a - b) % d == 0
  {
    if (a - b) % d == 0 {
      ModSum(b, a - b, d);
    } else if a % d == b % d {
      assert a - b == d * (a / d - b / d) by {
        assert a == d * (a / d) + a % d && b == d * (b / d) + b % d;
        assert d * (a / d - b / d) == d * (a / d) - d * (b / d);
      }
      ModOfMultiple(d, a / d - b / d);
    }
  }

  /** Reducing modulo n first does not change the remainder modulo a divisor of n. */
  lemma ModOfMod(a: int, n: nat, d: nat)
    requires n > 0 && d > 0 && n % d == 0
    ensures (a % n) % d == a % d
  {
    assert a == a % n + n * (a / n);
    ModMultiply(n, d, a / n);
    ModSum(a % n, n * (a / n), d);
  }

  lemma MulGrows(a: nat, b: nat)
    requires a >= 1
    ensures b >= 1 ==> a * b >= a && a * b >= b
    ensures b >= 2 ==> a * b > a
  {
    if b >= 1 {
      assert a * b == a + a * (b - 1);
    }
  }

  lemma DivisorBound(d: nat, n: nat)
    requires d > 0 && n > 0 && n % d == 0
    ensures 1 <= d <= n && n == d * (n / d) && 1 <= n / d <= n
  {
    var k := n / d;
    assert n == d * k;
    MultipleOutside(d, k);
    MulGrows(d, k);
  }

  ghost predicate IsPrime(n: nat) {
    2 <= n && forall d: nat :: 1 < d < n ==> n % d != 0
  }

  // ---------------------------------------------------------------- bitwise AND

  /** The C operator & on non-negative integers, bit by bit. */
  function And(a: nat, b: nat): (r: nat)
    decreases a
  {
    if a == 0 then 0
    else (if a % 2 == 1 && b % 2 == 1 then 1 else 0) + 2 * And(a / 2, b / 2)
  }

  lemma {:induction false} AndZero(a: nat)
    ensures And(a, 0) == 0
  {
    if a == 0 {
    } else {
      AndZero(a / 2);
    }
  }

  lemma {:induction false} AndSelf(a: nat)
    ensures And(a, a) == a
  {
    if a == 0 {
    } else {
      AndSelf(a / 2);
    }
  }

  lemma AndOne(a: nat)
    ensures And(a, 1) == a % 2
  {
    AndZero(a / 2);
  }

  lemma LowBit(a: nat, p: nat)
    requires p > 0
    ensures a % 2 + 2 * (a / 2 % p) == a % (2 * p)
  {
    var h := a / 2;
    var k, r := h / p, h % p;
    assert h == p * k + r;
    assert a == 2 * h + a % 2;
    assert 2 * (p * k) == 2 * p * k;
    DivModUnique(a, 2 * p, k, a % 2 + 2 * r);
  }

  /** The lowest bit, and the rest. */
  lemma AndStep(a: nat, b: nat)
    ensures And(a, b) == (if a % 2 == 1 && b % 2 == 1 then 1 else 0) + 2 * And(a / 2, b / 2)
  {
  }

  /** And with a mask of low ones keeps the low bits. */
  lemma {:induction false} AndLowBits(a: nat, k: nat)
    ensures And(a, Pow2(k) - 1) == a % Pow2(k)
    decreases k
  {
    hide And;
    if k == 0 {
      AndZero(a);
    } else {
      var p := Pow2(k - 1);
      AndLowBits(a / 2, k - 1);
      AndStep(a, 2 * p - 1);
      assert (2 * p - 1) / 2 == p - 1 && (2 * p - 1) % 2 == 1;
      LowBit(a, p);
    }
  }

  /** num & 15 */
  lemma AndFifteen(a: nat)
    ensures And(a, 15) == a % 16
  {
    hide And;
    AndLowBits(a, 4);
    assert Pow2(4) == 16;
  }

  /** dh & 0x80 */
  lemma AndTopBit(dh: byte)
    ensures And(dh, 0x80) != 0 <==> dh >= 128
  {
    hide And;
    AndStep(dh, 128);
    AndStep(dh / 2, 64);
    AndStep(dh / 4, 32);
    AndStep(dh / 8, 16);
    AndStep(dh / 16, 8);
    AndStep(dh / 32, 4);
    AndStep(dh / 64, 2);
    AndOne(dh / 128);
  }

  ghost predicate IsPow2(n: nat) {
    exists k: nat :: n == Pow2(k)
  }

  lemma IsPow2Half(n: nat)
    requires n > 1
    ensures IsPow2(n) <==> n % 2 == 0 && IsPow2(n / 2)
  {
    if IsPow2(n) {
      var k: nat :| n == Pow2(k);
      assert k > 0;
      assert n / 2 == Pow2(k - 1);
    }
    if n % 2 == 0 && IsPow2(n / 2) {
      var k: nat :| n / 2 == Pow2(k);
      assert n == Pow2(k + 1);
    }
  }

  /** The bit trick of the source: j & (j - 1) vanishes exactly on the powers of two. */
  lemma {:induction false} AndPredecessor(j: nat)
    requires j >= 1
    ensures And(j, j - 1) == 0 <==> IsPow2(j)
  {
    if j == 1 {
      assert 1 == Pow2(0);
    } else {
      IsPow2Half(j);
      if j % 2 == 0 {
        assert (j - 1) / 2 == j / 2 - 1;
        AndPredecessor(j / 2);
      } else {
        assert (j - 1) / 2 == j / 2;
        AndSelf(j / 2);
      }
    }
  }

  lemma OddTimesOdd(d: nat, k: nat)
    requires d % 2 == 1 && k % 2 == 1
    ensures (d * k) % 2 == 1
  {
    var u, v := d / 2, k / 2;
    assert d * k == 2 * (2 * u * v + u + v) + 1 by {
      assert d == 2 * u + 1 && k == 2 * v + 1;
    }
  }

  lemma OddDivisorOfDouble(d: nat, m: nat)
    requires d % 2 == 1 && (2 * m) % d == 0
    ensures m % d == 0
  {
    var k := 2 * m / d;
    assert 2 * m == d * k;
    if k % 2 == 1 {
      OddTimesOdd(d, k);
      assert false;
    }
    var h := k / 2;
    assert k == 2 * h;
    assert d * (2 * h) == 2 * (d * h);
    assert m == d * h;
    ModOfMultiple(d, h);
  }

  lemma EvenDivisorOfDouble(d: nat, e: nat, m: nat)
    requires e > 0 && d == 2 * e && (2 * m) % d == 0
    ensures m % e == 0
  {
    var k := 2 * m / d;
    assert 2 * m == d * k;
    assert d * k == 2 * (e * k);
    ModOfMultiple(e, k);
  }

  /** An odd divisor of 2m divides m; half of an even one does too. */
  lemma DivisorOfDouble(d: nat, m: nat)
    requires d > 0 && (2 * m) % d == 0
    ensures d % 2 == 1 ==> m % d == 0
    ensures d % 2 == 0 ==> m % (d / 2) == 0
  {
    if d % 2 == 0 {
      EvenDivisorOfDouble(d, d / 2, m);
    } else {
      OddDivisorOfDouble(d, m);
    }
  }

  /** A divisor of a power of two is a power of two. */
  lemma {:induction false} DivisorOfPow2(d: nat, n: nat)
    requires d > 0 && Pow2(n) % d == 0
    ensures IsPow2(d)
    decreases n
  {
    if d == 1 {
      assert 1 == Pow2(0);
    } else if n == 0 {
      DivisorBound(d, 1);
    } else {
      DivisorOfDouble(d, Pow2(n - 1));
      IsPow2Half(d);
      DivisorOfPow2(if d % 2 == 0 then d / 2 else d, n - 1);
    }
  }
}
