/**
 * Number-theory utilities of the Rader transform: the trial-division primality
 * test, the trial-division factorisation of p - 1, and the ascending search for
 * a primitive root modulo p.
 */
module NumberTheory {
  import opened Wrappers

  // ---------------------------------------------------------------------------
  // Divisibility and primality
  // ---------------------------------------------------------------------------

  /** `d` is a positive divisor of `n`. */
  predicate Divides(d: int, n: int) {
    d > 0 && n % d == 0
  }

  /** The textbook definition: at least 2 and no divisor strictly between 1 and n. */
  ghost predicate Prime(n: int) {
    n >= 2 && forall d :: 2 <= d < n ==> !Divides(d, n)
  }

  /** The distinct primes dividing `m` (empty when m < 2). */
  ghost function PrimeFactors(m: int): set<int> {
    set q | 2 <= q <= m && Prime(q) && Divides(q, m)
  }

  /** `b` raised to the power `e`. */
  function Pow(b: int, e: nat): int {
    if e == 0 then 1 else b * Pow(b, e - 1)
  }

  /** Python's three-argument `pow(b, e, m)` for a positive modulus. */
  function ModPow(b: int, e: nat, m: int): (r: int)
    requires m > 0
    ensures 0 <= r < m
  {
    Pow(b, e) % m
  }

  /** pow(b, 0, m) is 1 for every modulus m >= 2. */
  lemma ModPowZero(b: int, m: int)
    requires m >= 2
    ensures ModPow(b, 0, m) == 1
  {
  }

  // ---------------------------------------------------------------------------
  // Arithmetic facts about divisibility
  // ---------------------------------------------------------------------------

  lemma MultipleIsDivisible(d: int, k: int)
    requires d > 0
    ensures Divides(d, d * k)
  {
    var q, r := (d * k) / d, (d * k) % d;
    assert d * k == d * q + r;
    assert d * (k - q) == r;
    ProductInUnitRange(d, k - q);
  }

  /** A multiple d * t of a positive d that lies in [0, d) is 0. */
  lemma ProductInUnitRange(d: int, t: int)
    requires d > 0 && 0 <= d * t < d
    ensures t == 0
  {
    assert d * (1 - t) == d - d * t;
    PositiveFactor(d, 1 - t);
    assert d * (t + 1) == d * t + d;
    PositiveFactor(d, t + 1);
  }

  lemma DividesLinear(d: int, a: int, b: int, s: int, t: int)
    requires Divides(d, a) && Divides(d, b)
    ensures Divides(d, s * a + t * b)
  {
    var ka, kb := a / d, b / d;
    assert a == d * ka && b == d * kb;
    assert s * a + t * b == d * (s * ka + t * kb);
    MultipleIsDivisible(d, s * ka + t * kb);
  }

  lemma DividesTransitive(a: int, b: int, c: int)
    requires Divides(a, b) && Divides(b, c)
    ensures Divides(a, c)
  {
    var k := c / b;
    assert c == b * k;
    DividesLinear(a, b, 0, k, 0);
  }

  /** A positive divisor of a positive number is no larger than it. */
  lemma DivisorBound(d: int, n: int)
    requires Divides(d, n) && n >= 1
    ensures d <= n
  {
    var k := n / d;
    assert n == d * k;
    assert d * k >= d * 1;
  }

  /** Euclid's lemma for a factor below p, by descent on that factor. */
  lemma {:induction false} EuclidBelow(p: int, a: int, b: int)
    requires Prime(p) && 0 < a < p
    requires Divides(p, a * b)
    ensures Divides(p, b)
    decreases a
  {
    if a > 1 {
      var q, r := p / a, p % a;
      assert !Divides(a, p);
      assert 0 < r < a;
      assert r * b == 1 * (p * b) + (-q) * (a * b) by {
        assert p == q * a + r;
      }
      MultipleIsDivisible(p, b);
      DividesLinear(p, p * b, a * b, 1, -q);
      EuclidBelow(p, r, b);
    }
  }

  /** Euclid's lemma: a prime dividing a product divides one of the factors. */
  lemma Euclid(p: int, a: int, b: int)
    requires Prime(p) && Divides(p, a * b)
    ensures Divides(p, a) || Divides(p, b)
  {
    var r := a % p;
    if r != 0 {
      assert r * b == 1 * (a * b) + (-(a / p)) * (p * b) by {
        assert a == (a / p) * p + r;
      }
      MultipleIsDivisible(p, b);
      DividesLinear(p, a * b, p * b, 1, -(a / p));
      EuclidBelow(p, r, b);
    }
  }

  /** The least divisor above 1 of a number is prime. */
  lemma LeastDivisorIsPrime(d: int, n: int)
    requires d >= 2 && Divides(d, n)
    requires forall e :: 2 <= e < d ==> !Divides(e, n)
    ensures Prime(d)
  {
    forall e | 2 <= e < d
      ensures !Divides(e, d)
    {
      if Divides(e, d) {
        DividesTransitive(e, d, n);
      }
    }
  }

  /**
   * Trial division up to the square root is enough: n >= 2 with no divisor d
   * such that d * d <= n is prime.
   */
  lemma SquareRootTest(n: int)
    requires n >= 2
    requires forall d :: 2 <= d && d * d <= n ==> !Divides(d, n)
    ensures Prime(n)
  {
    forall e | 2 <= e < n
      ensures !Divides(e, n)
    {
      if Divides(e, n) {
        var k := n / e;
        CofactorOfLargeDivisor(n, e);
        MultipleIsDivisible(k, e);
      }
    }
  }

  /** A divisor e of n with e * e > n has a cofactor n / e in [2, e) whose square is at most n. */
  lemma CofactorOfLargeDivisor(n: int, e: int)
    requires 2 <= e < n && e * e > n && Divides(e, n)
    ensures n == (n / e) * e && 2 <= n / e && (n / e) * (n / e) <= n
  {
    var k := n / e;
    assert n == e * k;
    assert k >= 1 by {
      PositiveFactor(e, k);
    }
    assert k != 1;
    assert e * (e - k) > 0;
    PositiveFactor(e, e - k);
    MulLe(k, e, k);
  }

  /** The bounded form used after the factor loop: no divisor below a bound whose square exceeds n. */
  lemma SmallDivisorSuffices(n: int, bound: int)
    requires n >= 2 && bound >= 2 && bound * bound > n
    requires forall e :: 2 <= e < bound ==> !Divides(e, n)
    ensures Prime(n)
  {
    forall d | 2 <= d && d * d <= n
      ensures d < bound
    {
      SquareLess(d, bound);
    }
    SquareRootTest(n);
  }

  lemma SquareLess(a: int, b: int)
    requires a >= 0 && b >= 0 && a * a < b * b
    ensures a < b
  {
  }

  lemma MulLe(a: int, b: int, c: int)
    requires 0 <= a <= b && c >= 0
    ensures a * c <= b * c
  {
  }

  lemma PositiveFactor(a: int, b: int)
    requires a > 0 && a * b > 0
    ensures b > 0
  {
  }

  /** The only prime factor of a prime is itself. */
  lemma PrimeFactorsOfPrime(n: int)
    requires Prime(n)
    ensures PrimeFactors(n) == {n}
  {
    assert Divides(n, n) by {
      assert n == n * 1;
      MultipleIsDivisible(n, 1);
    }
    forall q | q in PrimeFactors(n)
      ensures q == n
    {
    }
  }

  /** Dividing a prime factor d out of n leaves the other prime factors of n. */
  lemma DivideOut(n: int, d: int)
    requires Prime(d) && n >= 1 && Divides(d, n)
    ensures 1 <= n / d < n
    ensures PrimeFactors(n) == {d} + PrimeFactors(n / d)
    ensures forall e :: Divides(e, n / d) ==> Divides(e, n)
  {
    var m := n / d;
    assert n == d * m;
    assert m >= 1;
    assert m < n by {
      assert d * m >= 2 * m;
    }
    forall e | Divides(e, m)
      ensures Divides(e, n)
    {
      DividesLinear(e, m, 0, d, 0);
    }
    DivisorBound(d, n);
    forall q
      ensures q in PrimeFactors(n) <==> q in {d} + PrimeFactors(m)
    {
      if q in PrimeFactors(n) {
        Euclid(q, d, m);
        if Divides(q, d) {
          DivisorBound(q, d);
        } else {
          DivisorBound(q, m);
        }
      }
      if q in PrimeFactors(m) {
        DivisorBound(q, n);
      }
    }
  }

  /** Powers of a number that a prime does not divide are not divisible by that prime. */
  lemma {:induction false} PowNotDivisible(p: int, g: int, e: nat)
    requires Prime(p) && !Divides(p, g)
    ensures !Divides(p, Pow(g, e))
  {
    if e > 0 {
      PowNotDivisible(p, g, e - 1);
      if Divides(p, Pow(g, e)) {
        Euclid(p, g, Pow(g, e - 1));
      }
    }
  }

  // ---------------------------------------------------------------------------
  // is_prime
  // ---------------------------------------------------------------------------

  /**
   * The scan of `is_prime` from candidate d on: false at the first candidate
   * that divides n, true once the candidates pass the square root of n.
   */
  function TrialDivision(n: int, d: int): (r: bool)
    requires d >= 2
    ensures r <==> forall e :: d <= e && e * e <= n ==> !Divides(e, n)
    decreases n - d
  {
    if d * d > n then
      NoCandidateAbove(n, d);
      true
    else if n % d == 0 then
      assert Divides(d, n);
      false
    else TrialDivision(n, d + 1)
  }

  /** Once d * d > n, no candidate e >= d has e * e <= n. */
  lemma NoCandidateAbove(n: int, d: int)
    requires d >= 2 && d * d > n
    ensures forall e :: d <= e ==> e * e > n
  {
    forall e | d <= e
      ensures e * e > n
    {
      MulLe(d, e, d);
      MulLe(d, e, e);
    }
  }

  /**
   * `is_prime`: false below 2, otherwise trial division by 2, 3, ... while the
   * candidate's square is at most n. The floating-point bound `int(sqrt(n))`
   * is stated exactly as d * d <= n.
   */
  function IsPrime(n: int): (r: bool)
    ensures r <==> n >= 2 && forall d :: 2 <= d && d * d <= n ==> !Divides(d, n)
    ensures r <==> Prime(n)
  {
    if n < 2 then false
    else
      var r := TrialDivision(n, 2);
      if r then SquareRootTest(n); r
      else r
  }

  // ---------------------------------------------------------------------------
  // get_primitive_root
  // ---------------------------------------------------------------------------

  /**
   * The factor loop of `get_primitive_root`: trial division of m, recording d
   * and dividing it out while it divides, then adding what is left above 1.
   */
  method DistinctPrimeFactors(m: int) returns (factors: set<int>)
    ensures factors == PrimeFactors(m)
  {
    factors := {};
    var n := m;
    var d := 2;
    while d * d <= n
      invariant d >= 2
      invariant factors + PrimeFactors(n) == PrimeFactors(m)
      invariant forall e :: 2 <= e < d ==> !Divides(e, n)
      decreases n - d
    {
      if n % d == 0 {
        LeastDivisorIsPrime(d, n);
        ghost var n0 := n;
        factors := factors + {d};
        while n % d == 0
          invariant n >= 1
          invariant {d} + PrimeFactors(n) == PrimeFactors(n0)
          invariant forall e :: 2 <= e < d ==> !Divides(e, n)
          decreases n
        {
          DivideOut(n, d);
          n := n / d;
        }
      }
      d := d + 1;
    }
    if n > 1 {
      SmallDivisorSuffices(n, d);
      PrimeFactorsOfPrime(n);
      factors := factors + {n};
    } else {
      assert PrimeFactors(n) == {};
    }
  }

  /** Every n >= 2 has a prime factor. */
  lemma {:induction false} HasPrimeFactor(n: int)
    requires n >= 2
    ensures exists q :: q in PrimeFactors(n)
    decreases n
  {
    if Prime(n) {
      assert n in PrimeFactors(n);
    } else {
      var d :| 2 <= d < n && Divides(d, n);
      HasPrimeFactor(d);
      var q :| q in PrimeFactors(d);
      DividesTransitive(q, d, n);
      DivisorBound(q, n);
      assert q in PrimeFactors(n);
    }
  }

  /** A number one more than a multiple of m >= 2 leaves remainder 1. */
  lemma RemainderOne(x: int, m: int)
    requires m >= 2 && Divides(m, x - 1)
    ensures x % m == 1
  {
    var q := (x - 1) / m;
    assert x == m * q + 1;
    var t := x / m - q;
    assert m * t == 1 - x % m;
    if x % m == 0 {
      ProductInUnitRange(m, t);
    } else {
      ProductInUnitRange(m, -t);
    }
  }

  /** Every power of a number congruent to 1 is congruent to 1. */
  lemma {:induction false} PowOfOne(c: int, e: nat, m: int)
    requires m >= 2 && Divides(m, c - 1)
    ensures Divides(m, Pow(c, e) - 1)
  {
    if e == 0 {
      assert Pow(c, e) - 1 == m * 0;
      MultipleIsDivisible(m, 0);
    } else {
      PowOfOne(c, e - 1, m);
      var prev := Pow(c, e - 1);
      assert Pow(c, e) - 1 == c * (prev - 1) + 1 * (c - 1);
      DividesLinear(m, prev - 1, c - 1, c, 1);
    }
  }

  /** For p > 2 a candidate congruent to 1 fails the test at some prime factor of p - 1. */
  lemma CongruentToOneFails(p: int, c: int)
    ensures p > 2 && Divides(p, c - 1) ==>
      var factors := PrimeFactors(p - 1);
      exists f :: f in factors && ModPow(c, (p - 1) / f, p) == 1
  {
    if p > 2 && Divides(p, c - 1) {
      HasPrimeFactor(p - 1);
      var f :| f in PrimeFactors(p - 1);
      PowOfOne(c, (p - 1) / f, p);
      RemainderOne(Pow(c, (p - 1) / f), p);
    }
  }

  /**
   * The test `get_primitive_root` applies to a candidate c: for every prime
   * factor f of p - 1, pow(c, (p - 1) / f, p) != 1. For p > 2 no candidate
   * congruent to 1 modulo p passes, which is why the search starts at 2.
   */
  ghost function PassesRootTest(p: int, c: int): (b: bool)
    ensures b && p > 2 ==> !Divides(p, c - 1)
  {
    CongruentToOneFails(p, c);
    p >= 2 && var factors := PrimeFactors(p - 1);
    forall f :: f in factors ==> ModPow(c, (p - 1) / f, p) != 1
  }

  /**
   * The root `get_primitive_root` chooses: 1 for p = 2, else the least passing
   * candidate in [2, p - 1]. Either way the chosen root passes the test.
   */
  ghost function ChosenRoot(p: int, g: int): (b: bool)
    ensures b ==> 1 <= g < p && PassesRootTest(p, g)
  {
    || (p == 2 && g == 1)
    || (p > 2 && 2 <= g < p && PassesRootTest(p, g) && forall c :: 2 <= c < g ==> !PassesRootTest(p, c))
  }

  /** At most one candidate is the chosen root. */
  lemma ChosenRootUnique(p: int, g: int, h: int)
    requires ChosenRoot(p, g) && ChosenRoot(p, h)
    ensures g == h
  {
  }

  /**
   * `get_primitive_root`: 1 for p = 2; otherwise the first candidate of
   * 2, 3, ..., p - 1 that passes the root test, or None when none does.
   */
  method PrimitiveRoot(p: int) returns (g: Option<int>)
    ensures p == 2 ==> g == Some(1)
    ensures g.Some? ==> ChosenRoot(p, g.value)
    ensures g.None? ==> p != 2 && forall c :: 2 <= c < p ==> !PassesRootTest(p, c)
  {
    if p == 2 {
      return Some(1);
    }
    var phi := p - 1;
    var factors := DistinctPrimeFactors(phi);
    var c := 2;
    while c < p
      invariant c >= 2
      invariant forall c' :: 2 <= c' < c ==> !PassesRootTest(p, c')
    {
      var isPrimitive := true;
      var rest := factors;
      while rest != {}
        invariant rest <= factors
        invariant forall f :: f in factors - rest ==> ModPow(c, phi / f, p) != 1
      {
        var f :| f in rest;
        if ModPow(c, phi / f, p) == 1 {
          isPrimitive := false;
          break;
        }
        rest := rest - {f};
      }
      if isPrimitive {
        return Some(c);
      }
      c := c + 1;
    }
    return None;
  }
}
