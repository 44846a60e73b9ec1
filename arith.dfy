/** Integer arithmetic as Ruby does it, and the number theory the prime
    generators rely on.

    Ruby's `%` and `/` round the quotient towards minus infinity, so the
    remainder takes the sign of the divisor; Dafny's round so that the
    remainder is never negative. The two agree for a positive divisor. */
module Arith {

  /** Ruby's `a % b` for b != 0 (b == 0 raises ZeroDivisionError; callers
      model that case themselves). */
  function RubyMod(a: int, b: int): (r: int)
    requires b != 0
    ensures b > 0 ==> 0 <= r < b
    ensures b < 0 ==> b < r <= 0
    ensures a == RubyDiv(a, b) * b + r
  {
    if b > 0 then a % b else -((-a) % (-b))
  }

  /** Ruby's `a / b` on integers, for b != 0. */
  function RubyDiv(a: int, b: int): int
    requires b != 0
  {
    if b > 0 then a / b else (-a) / (-b)
  }

  /** The remainder of n by a positive q is fixed by any decomposition
      n == q * d + r with 0 <= r < q. */
  lemma DivModUnique(n: int, q: int, d: int, r: int)
    requires q > 0 && n == q * d + r && 0 <= r < q
    ensures n % q == r && n / q == d
  {
    var d0, r0 := n / q, n % q;
    assert q * (d - d0) == r0 - r;
    if d - d0 >= 1 {
      assert false;
    } else if d - d0 <= -1 {
      assert false;
    }
  }

  lemma MultipleMod(q: int, k: int)
    requires q > 0
    ensures (q * k) % q == 0
  {
    DivModUnique(q * k, q, k, 0);
  }

  lemma MultiplePlusOneMod(q: int, k: int)
    requires q > 1
    ensures (q * k + 1) % q == 1
  {
    DivModUnique(q * k + 1, q, k, 1);
  }

  // ----- primality -----

  /** No d' with d <= d' < n divides n. */
  predicate NoDivisorFrom(n: int, d: int)
    requires d >= 2
    decreases n - d
  {
    d >= n || (n % d != 0 && NoDivisorFrom(n, d + 1))
  }

  /** n is a prime number. */
  predicate IsPrime(n: int) {
    n >= 2 && NoDivisorFrom(n, 2)
  }

  lemma {:induction false} NoDivisorFromMeans(n: int, d: int)
    requires d >= 2
    ensures NoDivisorFrom(n, d) <==> forall e :: d <= e < n ==> n % e != 0
    decreases n - d
  {
    if d < n {
      NoDivisorFromMeans(n, d + 1);
    }
  }

  /** The recursive test is the textbook definition. */
  lemma IsPrimeMeans(n: int)
    ensures IsPrime(n) <==> n >= 2 && forall e :: 2 <= e < n ==> n % e != 0
  {
    NoDivisorFromMeans(n, 2);
  }

  /** The least divisor of n that is at least d (n itself at worst). */
  function LeastDivisorFrom(n: int, d: int): (q: int)
    requires 2 <= d <= n
    ensures d <= q <= n && n % q == 0
    ensures forall e :: d <= e < q ==> n % e != 0
    decreases n - d
  {
    if n % d == 0 then d else LeastDivisorFrom(n, d + 1)
  }

  /** The least divisor above 1 of a number above 1 is prime. */
  lemma LeastDivisorIsPrime(n: int)
    requires n >= 2
    ensures IsPrime(LeastDivisorFrom(n, 2))
  {
    var q := LeastDivisorFrom(n, 2);
    IsPrimeMeans(q);
    forall e | 2 <= e < q ensures q % e != 0 {
      if q % e == 0 {
        var a, b := q / e, n / q;
        assert q == e * a && n == q * b;
        assert n == e * (a * b);
        MultipleMod(e, a * b);
      }
    }
  }

  function Factorial(m: nat): (f: nat)
    ensures f >= 1
  {
    if m == 0 then 1 else m * Factorial(m - 1)
  }

  lemma {:induction false} FactorialDivisible(m: nat, q: int)
    requires 1 <= q <= m
    ensures Factorial(m) % q == 0
  {
    if q == m {
      MultipleMod(m, Factorial(m - 1));
    } else {
      FactorialDivisible(m - 1, q);
      var k := Factorial(m - 1) / q;
      assert Factorial(m - 1) == q * k;
      assert Factorial(m) == q * (m * k);
      MultipleMod(q, m * k);
    }
  }

  /** Euclid: above every number there is a prime. */
  lemma PrimeAbove(m: nat) returns (p: int)
    ensures IsPrime(p) && p > m
  {
    var n := Factorial(m) + 1;
    p := LeastDivisorFrom(n, 2);
    LeastDivisorIsPrime(n);
    if p <= m {
      FactorialDivisible(m, p);
      var k := Factorial(m) / p;
      assert Factorial(m) == p * k;
      MultiplePlusOneMod(p, k);
      assert false;
    }
  }

  lemma SquareGrows(a: int, b: int)
    requires 0 <= a <= b
    ensures a * a <= b * b
  {
    MulLeft(a, a, b);
    MulLeft(b, a, b);
  }

  lemma MulLeft(c: int, a: int, b: int)
    requires c >= 0 && a <= b
    ensures c * a <= c * b
  {
    assert c * b - c * a == c * (b - a);
  }

  lemma SquareAbove(p: int, n: int)
    requires p >= 1 && p > n
    ensures p * p > n
  {
    MulLeft(p, 1, p);
  }

  /** A prime n has no divisor p >= 2 with p * p <= n. */
  lemma PrimeHasNoSmallFactor(n: int, p: int)
    requires IsPrime(n) && p >= 2
    ensures p * p <= n ==> RubyMod(n, p) != 0
  {
    IsPrimeMeans(n);
    MulLeft(p, 2, p);
  }

  /** A composite n >= 2 has a prime factor whose square is at most n. */
  lemma CompositeHasSmallPrimeFactor(n: int) returns (q: int)
    requires n >= 2 && !IsPrime(n)
    ensures IsPrime(q) && q * q <= n && RubyMod(n, q) == 0
  {
    IsPrimeMeans(n);
    q := LeastDivisorFrom(n, 2);
    LeastDivisorIsPrime(n);
    var e :| 2 <= e < n && n % e == 0;
    assert q < n;
    var m := Cofactor(n, q);
    MultipleMod(m, q);
    assert n % m == 0;
    assert m >= q;
    MulLeft(q, q, m);
  }

  /** n / q for a divisor 2 <= q < n: itself a divisor, at least 2. */
  lemma Cofactor(n: int, q: int) returns (m: int)
    requires 2 <= q < n && n % q == 0
    ensures n == q * m && n == m * q && m >= 2
  {
    m := n / q;
    assert n == q * m;
    if m <= 1 {
      MulLeft(q, m, 1);
    }
  }
}
