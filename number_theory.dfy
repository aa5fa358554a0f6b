/** Integer arithmetic the primality test, the primitive-root finder and
    ElGamal all rest on: powers, Python's three-argument `pow`, `math.gcd`,
    divisibility and primality, and the classical facts about them
    (Bezout's identity, Euclid's lemma, existence of a prime divisor). */
module NumberTheory {

  /** b to the power e, over the naturals. */
  function Pow(b: nat, e: nat): nat
    decreases e
  {
    if e == 0 then 1 else b * Pow(b, e - 1)
  }

  /** Python's `pow(b, e, m)` for a positive modulus, by square-and-multiply.
      `ModPowIsPow` proves its value is the e-th power of b reduced modulo m. */
  function ModPow(b: nat, e: nat, m: nat): (r: nat)
    requires m >= 1
    ensures r < m
    decreases e
  {
    if e == 0 then 1 % m
    else if e % 2 == 0 then ModPow((b * b) % m, e / 2, m)
    else (b * ModPow(b, e - 1, m)) % m
  }

  /** Square-and-multiply computes the power: pow(b, e, m) == b^e mod m. */
  lemma {:induction false} ModPowIsPow(b: nat, e: nat, m: nat)
    requires m >= 1
    ensures ModPow(b, e, m) == Pow(b, e) % m
    decreases e
  {
    if e == 0 {
    } else if e % 2 == 0 {
      ModPowIsPow((b * b) % m, e / 2, m);
      PowSquare(b, e / 2);
      PowMod(b * b, e / 2, m);
    } else {
      ModPowIsPow(b, e - 1, m);
      MulModRight(b, Pow(b, e - 1), m);
    }
  }

  /** One odd step of square-and-multiply, with the product b * x == q * m + r
      divided out by the caller: used to evaluate ModPow on concrete numbers. */
  lemma ModPowOddStep(b: nat, e: nat, m: nat, x: nat, q: nat, r: nat)
    requires m >= 1 && e % 2 == 1 && ModPow(b, e - 1, m) == x && b * x == q * m + r && r < m
    ensures ModPow(b, e, m) == r
  {
    DivModUnique(b * x, m, q, r);
  }

  /** One even step of square-and-multiply, with b * b == q * m + r. */
  lemma ModPowEvenStep(b: nat, e: nat, m: nat, x: nat, q: nat, r: nat)
    requires m >= 1 && e >= 2 && e % 2 == 0 && b * b == q * m + r && r < m && ModPow(r, e / 2, m) == x
    ensures ModPow(b, e, m) == x
  {
    DivModUnique(b * b, m, q, r);
  }

  /** Python's `math.gcd` on naturals (Euclid's algorithm). */
  function Gcd(a: nat, b: nat): (r: nat)
    ensures r == 0 <==> a == 0 && b == 0
    decreases b
  {
    if b == 0 then a else Gcd(b, a % b)
  }

  /** d is a positive divisor of n. */
  predicate Divides(d: nat, n: int)
  {
    d > 0 && n % d == 0
  }

  /** n is a prime number: at least 2 and without divisors strictly between 1 and n. */
  ghost predicate IsPrime(n: int)
  {
    n >= 2 && forall d: nat :: 2 <= d < n ==> !Divides(d, n)
  }

  // ---------------------------------------------------------------------
  // Division with remainder

  /** Euclidean division has a unique quotient and remainder. */
  lemma DivModUnique(x: int, m: int, q: int, r: int)
    requires m > 0 && 0 <= r < m && x == q * m + r
    ensures x % m == r && x / m == q
  {
    var q', r' := x / m, x % m;
    assert x == q' * m + r';
    if q' < q {
      assert (q - q') * m == r' - r;
      MulAtLeast(q - q', m);
    } else if q < q' {
      assert (q' - q) * m == r - r';
      MulAtLeast(q' - q, m);
    }
  }

  lemma MulAtLeast(k: int, m: int)
    requires k >= 1 && m > 0
    ensures k * m >= m
  {
  }

  /** Adding a multiple of m does not change the remainder. */
  lemma ModAddMultiple(x: int, k: int, m: int)
    requires m > 0
    ensures (x + k * m) % m == x % m
  {
    var q := x / m;
    assert x + k * m == (q + k) * m + x % m;
    DivModUnique(x + k * m, m, q + k, x % m);
  }

  /** A remainder may be taken of either factor before multiplying. */
  lemma MulModLeft(a: int, b: int, m: int)
    requires m > 0
    ensures (a * b) % m == ((a % m) * b) % m
  {
    var q := a / m;
    assert a * b == (a % m) * b + (q * b) * m;
    ModAddMultiple((a % m) * b, q * b, m);
  }

  lemma MulModRight(a: int, b: int, m: int)
    requires m > 0
    ensures (a * b) % m == (a * (b % m)) % m
  {
    MulModLeft(b, a, m);
  }

  lemma MulMod(a: int, b: int, m: int)
    requires m > 0
    ensures (a * b) % m == ((a % m) * (b % m)) % m
  {
    MulModLeft(a, b, m);
    MulModRight(a % m, b, m);
  }

  lemma AddMod(a: int, b: int, m: int)
    requires m > 0
    ensures (a + b) % m == ((a % m) + (b % m)) % m
  {
    var qa, qb := a / m, b / m;
    assert a + b == (a % m) + (b % m) + (qa + qb) * m;
    ModAddMultiple((a % m) + (b % m), qa + qb, m);
  }

  // ---------------------------------------------------------------------
  // Powers

  lemma {:induction false} PowAdd(b: nat, x: nat, y: nat)
    ensures Pow(b, x + y) == Pow(b, x) * Pow(b, y)
    decreases x
  {
    if x > 0 {
      PowAdd(b, x - 1, y);
      assert Pow(b, x + y) == b * Pow(b, x - 1 + y);
    }
  }

  lemma {:induction false} PowMul(b: nat, x: nat, y: nat)
    ensures Pow(b, x * y) == Pow(Pow(b, x), y)
    decreases y
  {
    if y > 0 {
      var e := x * (y - 1);
      PowMul(b, x, y - 1);
      PeelFactor(x, y);
      PowAdd(b, e, x);
      assert Pow(b, x * y) == Pow(b, e) * Pow(b, x);
    }
  }

  lemma PeelFactor(x: int, y: int)
    ensures x * y == x * (y - 1) + x
  {
  }

  lemma PowTwo(b: nat)
    ensures Pow(b, 2) == b * b
  {
    assert Pow(b, 2) == b * Pow(b, 1);
  }

  lemma PowSquare(b: nat, h: nat)
    ensures Pow(b * b, h) == Pow(b, 2 * h)
  {
    PowMul(b, 2, h);
    assert Pow(b, 2) == b * b;
  }

  /** The base of a power may be reduced modulo m first. */
  lemma {:induction false} PowMod(b: nat, e: nat, m: nat)
    requires m >= 1
    ensures Pow(b, e) % m == Pow(b % m, e) % m
    decreases e
  {
    if e > 0 {
      PowMod(b, e - 1, m);
      calc {
        Pow(b, e) % m;
        (b * Pow(b, e - 1)) % m;
        { MulMod(b, Pow(b, e - 1), m); }
        ((b % m) * (Pow(b, e - 1) % m)) % m;
        { MulModRight(b % m, Pow(b % m, e - 1), m); }
        ((b % m) * Pow(b % m, e - 1)) % m;
      }
    }
  }

  lemma {:induction false} PowOne(e: nat)
    ensures Pow(1, e) == 1
    decreases e
  {
    if e > 0 { PowOne(e - 1); }
  }

  /** Once b^t is 1 modulo m, every further multiple of t in the exponent
      brings the power back to 1. */
  lemma PowMultipleOfUnit(b: nat, t: nat, c: nat, m: nat)
    requires m >= 2 && Pow(b, t) % m == 1
    ensures Pow(b, t * c) % m == 1
  {
    var x := Pow(b, t);
    PowMul(b, t, c);
    PowMod(x, c, m);
    PowOne(c);
    DivModUnique(1, m, 0, 1);
  }

  /** Exponents may be reduced modulo any t with b^t equal to 1 modulo m. */
  lemma PowReduceExponent(b: nat, t: nat, e: nat, m: nat)
    requires m >= 2 && t >= 1 && Pow(b, t) % m == 1
    ensures Pow(b, e) % m == Pow(b, e % t) % m
  {
    var q, r := e / t, e % t;
    assert e == t * q + r;
    var x, y := Pow(b, t * q), Pow(b, r);
    PowAdd(b, t * q, r);
    assert Pow(b, e) == x * y;
    PowMultipleOfUnit(b, t, q, m);
    assert x % m == 1;
    MulModLeft(x, y, m);
    assert (x * y) % m == (1 * y) % m;
  }

  // ---------------------------------------------------------------------
  // Divisibility

  lemma DividesLinear(d: nat, a: nat, b: nat, x: int, y: int)
    requires Divides(d, a) && Divides(d, b)
    ensures Divides(d, a * x + b * y)
  {
    var qa, qb := a / d, b / d;
    assert a == qa * d;
    assert b == qb * d;
    assert a * x + b * y == (qa * x + qb * y) * d;
    DivModUnique(a * x + b * y, d, qa * x + qb * y, 0);
  }

  lemma DividesTransitive(a: nat, b: nat, c: nat)
    requires Divides(a, b) && Divides(b, c)
    ensures Divides(a, c)
  {
    DividesLinear(a, b, b, c / b, 0);
    assert b * (c / b) + b * 0 == c;
  }

  lemma DividesProduct(d: nat, a: nat, k: nat)
    requires Divides(d, a)
    ensures Divides(d, a * k)
  {
    DividesLinear(d, a, a, k, 0);
  }

  lemma DividesMultiple(d: nat, k: nat)
    requires d > 0
    ensures Divides(d, d * k)
  {
    DivModUnique(d * k, d, k, 0);
  }

  /** A positive multiple of d is at least d. */
  lemma DivisorAtMost(d: nat, n: nat)
    requires Divides(d, n) && n > 0
    ensures d <= n
  {
    if d > n { DivModUnique(n, d, 0, n); }
  }

  /** The divisors of a prime are 1 and the prime itself. */
  lemma PrimeDivisorsAreTrivial(p: nat, d: nat)
    requires IsPrime(p) && Divides(d, p)
    ensures d == 1 || d == p
  {
    DivisorAtMost(d, p);
  }

  /** A prime that divides a prime is that prime. */
  lemma PrimeDividesPrime(q: nat, p: nat)
    requires IsPrime(q) && IsPrime(p) && Divides(q, p)
    ensures q == p
  {
    PrimeDivisorsAreTrivial(p, q);
  }

  // ---------------------------------------------------------------------
  // Greatest common divisor

  lemma {:induction false} GcdDivides(a: nat, b: nat)
    requires a > 0 || b > 0
    ensures Gcd(a, b) > 0 && Divides(Gcd(a, b), a) && Divides(Gcd(a, b), b)
    decreases b
  {
    if b == 0 {
      DivModUnique(a, a, 1, 0);
    } else {
      GcdDivides(b, a % b);
      var g := Gcd(a, b);
      assert a == b * (a / b) + (a % b) * 1;
      DividesLinear(g, b, a % b, a / b, 1);
    }
  }

  /** Every common divisor divides the gcd. */
  lemma {:induction false} GcdGreatest(a: nat, b: nat, c: nat)
    requires Divides(c, a) && Divides(c, b)
    ensures Divides(c, Gcd(a, b))
    decreases b
  {
    if b > 0 {
      assert a % b == a * 1 + b * (-(a / b));
      DividesLinear(c, a, b, 1, -(a / b));
      GcdGreatest(b, a % b, c);
    }
  }

  /** Bezout's identity, with the coefficients computed by the extended
      Euclidean algorithm. */
  lemma {:induction false} Bezout(a: nat, b: nat) returns (x: int, y: int)
    ensures a * x + b * y == Gcd(a, b)
    decreases b
  {
    if b == 0 {
      x, y := 1, 0;
    } else {
      var x', y' := Bezout(b, a % b);
      var q, r := a / b, a % b;
      assert r == a - q * b;
      x, y := y', x' - q * y';
      BezoutStep(a, b, q, r, x', y');
    }
  }

  /** The arithmetic step of Bezout, kept apart from Gcd. */
  lemma BezoutStep(a: int, b: int, q: int, r: int, x: int, y: int)
    requires r == a - q * b
    ensures a * y + b * (x - q * y) == b * x + r * y
  {
    calc {
      a * y + b * (x - q * y);
      a * y + b * x - b * (q * y);
      b * x + (a - q * b) * y;
    }
  }

  /** If n divides a*b and shares no factor with a, it divides b. */
  lemma CoprimeDividesProduct(n: nat, a: nat, b: nat)
    requires Gcd(a, n) == 1 && Divides(n, a * b)
    ensures Divides(n, b)
  {
    var x, y := Bezout(a, n);
    BezoutScale(a, b, n, x, y);
    DivModUnique(n, n, 1, 0);
    DividesLinear(n, a * b, n, x, b * y);
  }

  lemma BezoutScale(a: int, b: int, n: int, x: int, y: int)
    requires a * x + n * y == 1
    ensures (a * b) * x + n * (b * y) == b
  {
    calc {
      (a * b) * x + n * (b * y);
      b * (a * x) + b * (n * y);
      b * (a * x + n * y);
    }
  }

  /** A prime that does not divide a shares no factor with it. */
  lemma PrimeCoprime(p: nat, a: nat)
    requires IsPrime(p) && !Divides(p, a)
    ensures Gcd(a, p) == 1
  {
    GcdDivides(a, p);
    PrimeDivisorsAreTrivial(p, Gcd(a, p));
  }

  /** Euclid's lemma: a prime dividing a product divides one of the factors. */
  lemma EuclidLemma(p: nat, a: nat, b: nat)
    requires IsPrime(p) && Divides(p, a * b)
    ensures Divides(p, a) || Divides(p, b)
  {
    if !Divides(p, a) {
      PrimeCoprime(p, a);
      CoprimeDividesProduct(p, a, b);
    }
  }

  /** A prime that divides no factor divides no power. */
  lemma {:induction false} PrimeNotDividesPow(p: nat, b: nat, e: nat)
    requires IsPrime(p) && !Divides(p, b)
    ensures !Divides(p, Pow(b, e))
    decreases e
  {
    if e == 0 {
      DivModUnique(1, p, 0, 1);
    } else {
      PrimeNotDividesPow(p, b, e - 1);
      if Divides(p, Pow(b, e)) {
        EuclidLemma(p, b, Pow(b, e - 1));
      }
    }
  }

  /** Every n >= 2 has a prime divisor. */
  lemma {:induction false} PrimeDivisorExists(n: nat) returns (f: nat)
    requires n >= 2
    ensures IsPrime(f) && Divides(f, n)
    decreases n
  {
    if IsPrime(n) {
      f := n;
      DivModUnique(n, n, 1, 0);
    } else {
      var d: nat :| 2 <= d < n && Divides(d, n);
      f := PrimeDivisorExists(d);
      DividesTransitive(f, d, n);
    }
  }

  /** A number without divisors below i, and smaller than i*i, is prime. */
  lemma NoSmallDivisorIsPrime(n: nat, i: nat)
    requires n >= 2 && n < i * i
    requires forall d: nat :: 2 <= d < i ==> !Divides(d, n)
    ensures IsPrime(n)
  {
    forall d: nat | 2 <= d < n
      ensures !Divides(d, n)
    {
      if Divides(d, n) {
        var e := n / d;
        assert n == e * d;
        assert e >= 2;
        assert Divides(e, n) by { DivModUnique(n, e, d, 0); }
        if d >= i && e >= i {
          MulMonotone(i, d, i, e);
        }
      }
    }
  }

  lemma MulMonotone(a: nat, b: nat, c: nat, d: nat)
    requires a <= b && c <= d
    ensures a * c <= b * d
  {
  }

  /** None of lo, lo + 1, ..., hi - 1 divides n: a decision procedure for
      small concrete numbers. */
  predicate NoDivisorIn(n: nat, lo: nat, hi: nat)
    requires lo >= 1
    decreases hi - lo
  {
    lo >= hi || (n % lo != 0 && NoDivisorIn(n, lo + 1, hi))
  }

  lemma {:induction false} NoDivisorInSound(n: nat, lo: nat, hi: nat)
    requires lo >= 1 && NoDivisorIn(n, lo, hi)
    ensures forall d: nat :: lo <= d < hi ==> !Divides(d, n)
    decreases hi - lo
  {
    if lo < hi {
      NoDivisorInSound(n, lo + 1, hi);
    }
  }

  /** Trial division up to the square root decides primality. */
  lemma PrimeByTrialDivision(n: nat, i: nat)
    requires 2 <= n < i * i && NoDivisorIn(n, 2, i)
    ensures IsPrime(n)
  {
    NoDivisorInSound(n, 2, i);
    NoSmallDivisorIsPrime(n, i);
  }
}
