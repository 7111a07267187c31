/**
 The recursive Euclid of src/math.c and the depth of its recursion.
 */
module Euclid {
  import opened Arith

  /** gcd: the C function, on values. */
  function Gcd(a: nat, b: nat): (g: nat)
    ensures b <= a || b == 0 ==> g <= a
    ensures 0 < a || 0 < b ==> 0 < g
    decreases b
  {
    if b != 0 then Gcd(b, a % b) else a
  }

  /**
   The common divisors of a and b are exactly the divisors of Gcd(a, b). No argument is
   excluded: with both zero, the gcd is zero and every d divides all three.
   */
  lemma {:induction false} CommonDivisors(a: nat, b: nat, d: nat)
    requires d > 0
    ensures a % d == 0 && b % d == 0 <==> Gcd(a, b) % d == 0
    decreases b
  {
    if b == 0 {
    } else {
      CommonDivisors(b, a % b, d);
      if b % d == 0 {
        ModOfMod(a, b, d);
      }
    }
  }

  /** Gcd is a common divisor, and every common divisor divides it. */
  lemma GcdIsGreatest(a: nat, b: nat)
    requires a > 0 || b > 0
    ensures Gcd(a, b) > 0 && a % Gcd(a, b) == 0 && b % Gcd(a, b) == 0
    ensures forall d: nat | d > 0 && a % d == 0 && b % d == 0 :: Gcd(a, b) % d == 0 && d <= Gcd(a, b)
  {
    var g := Gcd(a, b);
    CommonDivisors(a, b, g);
    ModOfMultiple(g, 1);
    forall d: nat | d > 0 && a % d == 0 && b % d == 0
      ensures g % d == 0 && d <= g
    {
      CommonDivisors(a, b, d);
      DivisorBound(d, g);
    }
  }

  /** The test g != 1 of the search loop: it succeeds exactly when z shares a divisor with n. */
  lemma SharesDivisor(z: nat, n: nat)
    requires n >= 2
    ensures Gcd(z, n) != 1 <==> exists d: nat :: 1 < d && n % d == 0 && z % d == 0
  {
    var g := Gcd(z, n);
    GcdIsGreatest(z, n);
    if g != 1 {
      assert 1 < g && n % g == 0 && z % g == 0;
    }
    if d: nat :| 1 < d && n % d == 0 && z % d == 0 {
      assert d <= g;
    }
  }

  // ---------------------------------------------------------------- recursion depth

  /** How many recursive calls gcd(a, b) makes. */
  function Calls(a: nat, b: nat): (n: nat)
    decreases b
  {
    if b != 0 then 1 + Calls(b, a % b) else 0
  }

  /** The arguments of gcd(a, b) and of all the recursive calls under it, down to the one that returns. */
  ghost predicate IsExecution(s: seq<(nat, nat)>, a: nat, b: nat) {
    && s != [] && s[0] == (a, b) && s[|s| - 1].1 == 0
    && (forall k :: 0 <= k < |s| - 1 ==> s[k].1 != 0 && s[k + 1] == (s[k].1, s[k].0 % s[k].1))
  }

  lemma ExecutionTail(s: seq<(nat, nat)>, a: nat, b: nat)
    requires IsExecution(s, a, b) && b != 0
    ensures |s| > 1 && IsExecution(s[1..], b, a % b)
  {
    var rest := s[1..];
    forall k | 0 <= k < |rest| - 1 ensures rest[k].1 != 0 && rest[k + 1] == (rest[k].1, rest[k].0 % rest[k].1) {
      assert rest[k] == s[k + 1] && rest[k + 1] == s[k + 2];
    }
  }

  /** Any execution of gcd(a, b) returns Gcd(a, b), after Calls(a, b) recursive calls. */
  lemma {:induction false} ExecutionIsCalls(s: seq<(nat, nat)>, a: nat, b: nat)
    requires IsExecution(s, a, b)
    ensures s[|s| - 1].0 == Gcd(a, b) && |s| == Calls(a, b) + 1
    decreases |s|
  {
    if b == 0 {
      assert |s| == 1;
    } else {
      ExecutionTail(s, a, b);
      ExecutionIsCalls(s[1..], b, a % b);
    }
  }

  lemma {:induction false} ExecutionExists(a: nat, b: nat) returns (s: seq<(nat, nat)>)
    ensures IsExecution(s, a, b)
    decreases b
  {
    if b == 0 {
      s := [(a, b)];
    } else {
      var rest := ExecutionExists(b, a % b);
      s := [(a, b)] + rest;
      forall k | 0 <= k < |s| - 1 ensures s[k].1 != 0 && s[k + 1] == (s[k].1, s[k].0 % s[k].1) {
        assert s[k + 1] == rest[k] && (k > 0 ==> s[k] == rest[k - 1]);
      }
    }
  }

  function Fib(n: nat): (f: nat)
  {
    if n < 2 then n else Fib(n - 1) + Fib(n - 2)
  }

  lemma {:induction false} FibMonotonic(m: nat, n: nat)
    requires m <= n
    ensures Fib(m) <= Fib(n)
    decreases n
  {
    if 2 <= n && m < n {
      FibMonotonic(m, n - 1);
    }
  }

  /** A remainder is at most what is left of a after taking b once. */
  lemma RemainderRoom(a: nat, b: nat)
    requires a >= b > 0
    ensures a >= b + a % b
  {
    assert a == b * (a / b) + a % b;
    MultipleOutside(b, a / b);
    if a / b <= 0 {
      DivModUnique(a, b, 0, a);
    }
  }

  lemma {:induction false} CallsAgainstFib(a: nat, b: nat)
    requires a > b
    ensures var n := Calls(a, b); n >= 1 ==> a >= Fib(n + 2) && b >= Fib(n + 1)
    decreases b
  {
    if b == 0 {
    } else {
      var n := Calls(a, b);
      var r := a % b;
      assert n == 1 + Calls(b, r);
      RemainderRoom(a, b);
      if r == 0 {
        assert Fib(3) == 2 && Fib(2) == 1;
      } else {
        CallsAgainstFib(b, r);
        assert Fib(n + 2) == Fib(n + 1) + Fib(n);
      }
    }
  }

  /** Lamé: n recursive calls need arguments at least as large as consecutive Fibonacci numbers. */
  lemma Lame(s: seq<(nat, nat)>, a: nat, b: nat)
    requires a > b && IsExecution(s, a, b)
    ensures var n := |s| - 1; n >= 1 ==> a >= Fib(n + 2) && b >= Fib(n + 1)
  {
    hide Fib, Calls;
    ExecutionIsCalls(s, a, b);
    CallsAgainstFib(a, b);
  }

  /** A division with quotient 1 costs one call. */
  lemma CallsOfSum(b: nat, c: nat)
    requires c < b
    ensures Calls(b + c, b) == 1 + Calls(b, c)
  {
    DivModUnique(b + c, b, 1, c);
  }

  lemma FibGrows(n: nat)
    requires n >= 2
    ensures Fib(n + 2) == Fib(n + 1) + Fib(n) && Fib(n) < Fib(n + 1)
  {
    if n == 2 {
      assert Fib(3) == 2 && Fib(2) == 1;
    } else {
      FibMonotonic(2, n - 1);
    }
  }

  /** The bound is attained: consecutive Fibonacci numbers make exactly n calls. */
  lemma LameIsTight(s: seq<(nat, nat)>, n: nat)
    requires n >= 1 && IsExecution(s, Fib(n + 2), Fib(n + 1))
    ensures |s| - 1 == n
  {
    hide Fib, Calls;
    ExecutionIsCalls(s, Fib(n + 2), Fib(n + 1));
    CallsOfFib(n);
  }

  lemma {:induction false} CallsOfFib(n: nat)
    requires n >= 1
    ensures Calls(Fib(n + 2), Fib(n + 1)) == n
    decreases n
  {
    if n == 1 {
      assert Fib(3) == 2 && Fib(2) == 1;
      assert Calls(1, 0) == 0;
    } else {
      hide Fib, Calls;
      CallsOfFib(n - 1);
      FibGrows(n);
      CallsOfSum(Fib(n + 1), Fib(n));
    }
  }

  /** Ten steps of the recurrence at once. */
  lemma FibTen(n: nat, a: nat, b: nat)
    requires Fib(n) == a && Fib(n + 1) == b
    ensures Fib(n + 10) == 34 * a + 55 * b && Fib(n + 11) == 55 * a + 89 * b
  {
    assert Fib(n + 2) == a + b && Fib(n + 3) == a + 2 * b;
    assert Fib(n + 4) == 2 * a + 3 * b && Fib(n + 5) == 3 * a + 5 * b;
    assert Fib(n + 6) == 5 * a + 8 * b && Fib(n + 7) == 8 * a + 13 * b;
    assert Fib(n + 8) == 13 * a + 21 * b && Fib(n + 9) == 21 * a + 34 * b;
  }

  lemma FibThirty(n: nat, a: nat, b: nat)
    requires Fib(n) == a && Fib(n + 1) == b
    ensures Fib(n + 30) == 514229 * a + 832040 * b && Fib(n + 31) == 832040 * a + 1346269 * b
  {
    FibTen(n, a, b);
    FibTen(n + 10, 34 * a + 55 * b, 55 * a + 89 * b);
    FibTen(n + 20, 4181 * a + 6765 * b, 6765 * a + 10946 * b);
  }

  lemma FibNinety(n: nat)
    requires Fib(n) == 0 && Fib(n + 1) == 1
    ensures Fib(n + 90) == 2880067194370816120 && Fib(n + 91) == 4660046610375530309
  {
    FibThirty(n, 0, 1);
    FibThirty(n + 30, 832040, 1346269);
    FibThirty(n + 60, 1548008755920, 2504730781961);
  }

  lemma FibAroundTwo63(k: nat)
    requires k == 90
    ensures Fib(k + 1) < Fib(k + 2) < TWO_63 < Fib(k + 3)
  {
    var n := k - 90;
    assert Fib(n) == 0 && Fib(n + 1) == 1;
    FibNinety(n);
    assert Fib(k + 2) == Fib(k + 1) + Fib(k);
    assert Fib(k + 3) == Fib(k + 2) + Fib(k + 1);
  }

  lemma FirstCallSwaps(z: nat, pq: nat)
    requires z < pq
    ensures Calls(z, pq) == 1 + Calls(pq, z)
  {
    DivModUnique(z, pq, 0, z);
  }

  lemma SearchCalls(z: nat, pq: nat)
    requires z < pq <= TWO_63
    ensures Calls(z, pq) <= 91
  {
    hide Calls, Fib;
    FirstCallSwaps(z, pq);
    var n := Calls(pq, z);
    var k: nat :| k == 90;
    if n > k {
      CallsAgainstFib(pq, z);
      FibMonotonic(k + 3, n + 2);
      FibAroundTwo63(k);
      assert false;
    }
  }

  /**
   The call gcd(z, pq) of the search loop has z < pq <= 2^63. Its first recursive call only
   swaps the arguments; altogether it makes at most 91.
   */
  lemma SearchDepth(s: seq<(nat, nat)>, z: nat, pq: nat)
    requires z < pq <= TWO_63 && IsExecution(s, z, pq)
    ensures |s| - 1 <= 91
  {
    hide Calls;
    ExecutionIsCalls(s, z, pq);
    SearchCalls(z, pq);
  }

  /** Some arguments in that range do make 91 calls. */
  lemma SearchDepthAttained() returns (s: seq<(nat, nat)>, z: nat, pq: nat)
    ensures z < pq <= TWO_63 && IsExecution(s, z, pq) && |s| - 1 == 91
  {
    hide Calls, Fib;
    var k: nat :| k == 90;
    FibAroundTwo63(k);
    z, pq := Fib(k + 1), Fib(k + 2);
    FirstCallSwaps(z, pq);
    CallsOfFib(k);
    s := ExecutionExists(z, pq);
    ExecutionIsCalls(s, z, pq);
  }
}
