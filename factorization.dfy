/** The factorisation of phi == p - 1 inside `find_primitive_roots`
    (MaheshGhogare.py:38-51): repeated division by 2, then by the odd numbers
    3, 5, 7, ... while i * i <= temp, and finally the cofactor left over.
    The result is a dictionary from prime to multiplicity; `FactorTotient` is
    proved to return exactly the prime factorisation, stated through the
    p-adic valuation of phi. */
module Factorization {
  import opened NumberTheory

  /** The exponent of q in n: how many times q divides n (0 for n == 0). */
  function Valuation(q: nat, n: nat): nat
    requires q >= 2
    decreases n
  {
    if n > 0 && n % q == 0 then 1 + Valuation(q, n / q) else 0
  }

  /** The prime divisors of n. */
  ghost function PrimeDivisors(n: nat): set<nat>
  {
    set q: nat | 2 <= q <= n && IsPrime(q) && Divides(q, n)
  }

  /** A lookup in a `defaultdict(int)`: a missing key reads as 0. */
  function Count(factors: map<nat, nat>, q: nat): nat
  {
    if q in factors then factors[q] else 0
  }

  /** `factors[f] += 1` on a `defaultdict(int)`. */
  function Increment(factors: map<nat, nat>, f: nat): (r: map<nat, nat>)
    ensures r.Keys == factors.Keys + {f}
    ensures forall q :: Count(r, q) == Count(factors, q) + (if q == f then 1 else 0)
  {
    factors[f := Count(factors, f) + 1]
  }

  /** The state of the division loops: every prime's exponent in phi is
      split between the dictionary and what is left of temp, and the
      dictionary holds only primes, each at least once. */
  ghost predicate Accounted(phi: nat, factors: map<nat, nat>, temp: nat)
  {
    temp >= 1 &&
    (forall q: nat :: IsPrime(q) ==> Valuation(q, phi) == Count(factors, q) + Valuation(q, temp)) &&
    (forall q :: q in factors ==> IsPrime(q) && factors[q] >= 1)
  }

  /** The factorisation loops of MaheshGhogare.py:39-51 on phi >= 1. */
  method FactorTotient(phi: nat) returns (factors: map<nat, nat>)
    requires phi >= 1
    ensures forall q :: q in factors ==> IsPrime(q) && factors[q] == Valuation(q, phi)
    ensures forall q: nat :: IsPrime(q) ==> Count(factors, q) == Valuation(q, phi)
    ensures factors.Keys == PrimeDivisors(phi)
  {
    factors := map[];
    var temp := phi;
    assert Accounted(phi, factors, temp);
    while temp % 2 == 0
      invariant Accounted(phi, factors, temp)
      decreases temp
    {
      DivideOut(phi, factors, temp, 2);
      factors := Increment(factors, 2);
      temp := temp / 2;
    }
    var i := 3;
    while i * i <= temp
      invariant Accounted(phi, factors, temp)
      invariant i >= 3 && i % 2 == 1
      invariant forall d: nat :: 2 <= d < i ==> !Divides(d, temp)
      decreases temp as int - i
    {
      ghost var before := temp;
      while temp % i == 0
        invariant Accounted(phi, factors, temp)
        invariant forall d: nat :: 2 <= d < i ==> !Divides(d, temp)
        invariant temp <= before
        decreases temp
      {
        DivideByLeastDivisor(phi, factors, temp, i);
        factors := Increment(factors, i);
        temp := temp / i;
      }
      OddStep(temp, i);
      assert i <= i * i;
      i := i + 2;
    }
    FinishFactorisation(phi, factors, temp, i);
    if temp > 2 {
      factors := Increment(factors, temp);
    }
    ValuationsDetermineFactors(phi, factors);
  }

  /** One pass of the inner loop: i is the least divisor of temp above 1,
      hence prime, and dividing it out keeps the loop's invariants. */
  lemma DivideByLeastDivisor(phi: nat, factors: map<nat, nat>, temp: nat, i: nat)
    requires Accounted(phi, factors, temp) && i >= 2 && temp % i == 0
    requires forall d: nat :: 2 <= d < i ==> !Divides(d, temp)
    ensures Accounted(phi, Increment(factors, i), temp / i)
    ensures forall d: nat :: 2 <= d < i ==> !Divides(d, temp / i)
    ensures temp / i < temp
  {
    SmallestDivisorIsPrime(i, temp);
    DivideOut(phi, factors, temp, i);
    NoDivisorsOfQuotient(temp, i, i);
    QuotientSmaller(temp, i);
  }

  lemma QuotientSmaller(n: nat, d: nat)
    requires n >= 1 && d >= 2
    ensures n / d < n
  {
    var q := n / d;
    assert n == q * d + n % d;
    if q >= n {
      MulMonotone(n, q, 2, d);
    }
  }

  /** Dividing temp by one of its prime divisors f moves one factor f from
      temp into the dictionary. */
  lemma DivideOut(phi: nat, factors: map<nat, nat>, temp: nat, f: nat)
    requires Accounted(phi, factors, temp) && IsPrime(f) && temp % f == 0
    ensures Accounted(phi, Increment(factors, f), temp / f)
  {
    var r := Increment(factors, f);
    assert temp / f >= 1 by {
      if temp / f == 0 { DivModUnique(temp, f, 0, temp); }
    }
    forall q: nat | IsPrime(q)
      ensures Valuation(q, phi) == Count(r, q) + Valuation(q, temp / f)
    {
      ValuationOfQuotient(q, f, temp);
    }
  }

  /** Dividing n by a prime f lowers the exponent of f by one and leaves the
      exponent of every other prime unchanged. */
  lemma {:induction false} ValuationOfQuotient(q: nat, f: nat, n: nat)
    requires IsPrime(q) && IsPrime(f) && n > 0 && n % f == 0
    ensures Valuation(q, n) == (if q == f then 1 else 0) + Valuation(q, n / f)
    decreases n
  {
    if q != f {
      if n % q == 0 {
        var k := QuotientsCommute(n, q, f);
        ValuationOfQuotient(q, f, n / q);
      } else {
        QuotientKeepsNonDivisor(n, q, f);
      }
    }
  }

  /** Two different primes q and f dividing n: n / f == k * q and
      n / q == k * f for the same k == n / (q * f). */
  lemma QuotientsCommute(n: nat, q: nat, f: nat) returns (k: nat)
    requires IsPrime(q) && IsPrime(f) && q != f && n > 0 && n % f == 0 && n % q == 0
    ensures n / q > 0 && n / q < n && (n / q) % f == 0
    ensures (n / f) % q == 0 && (n / f) / q == k && (n / q) / f == k
  {
    var m := n / f;
    assert n == m * f;
    assert Divides(q, f * m) by { assert f * m == n; }
    EuclidLemma(q, f, m);
    if Divides(q, f) { PrimeDividesPrime(q, f); }
    k := m / q;
    assert m == k * q;
    assert n == (k * f) * q;
    DivModUnique(n, q, k * f, 0);
    DivModUnique(k * f, f, k, 0);
    DivModUnique(m, q, k, 0);
    QuotientSmaller(n, q);
  }

  /** If q does not divide n, it does not divide n / f either. */
  lemma QuotientKeepsNonDivisor(n: nat, q: nat, f: nat)
    requires q >= 2 && f >= 1 && n % f == 0 && n % q != 0
    ensures (n / f) % q != 0
  {
    var m := n / f;
    assert n == m * f;
    if m % q == 0 {
      var k := m / q;
      assert m == k * q;
      assert n == (k * f) * q;
      DivModUnique(n, q, k * f, 0);
    }
  }

  /** The least divisor above 1 of a number is prime. */
  lemma SmallestDivisorIsPrime(i: nat, temp: nat)
    requires i >= 2 && temp >= 1 && temp % i == 0
    requires forall d: nat :: 2 <= d < i ==> !Divides(d, temp)
    ensures IsPrime(i)
  {
    forall d: nat | 2 <= d < i
      ensures !Divides(d, i)
    {
      if Divides(d, i) {
        DividesTransitive(d, i, temp);
      }
    }
  }

  /** A divisor of temp / f is a divisor of temp. */
  lemma NoDivisorsOfQuotient(temp: nat, f: nat, i: nat)
    requires f >= 1 && temp % f == 0
    requires forall d: nat :: 2 <= d < i ==> !Divides(d, temp)
    ensures forall d: nat :: 2 <= d < i ==> !Divides(d, temp / f)
  {
    forall d: nat | 2 <= d < i && Divides(d, temp / f)
      ensures false
    {
      assert temp == (temp / f) * f;
      DividesProduct(d, temp / f, f);
    }
  }

  /** Once i divides temp no more, neither i nor the even number i + 1 does. */
  lemma OddStep(temp: nat, i: nat)
    requires i >= 3 && i % 2 == 1 && temp % i != 0
    requires forall d: nat :: 2 <= d < i ==> !Divides(d, temp)
    ensures forall d: nat :: 2 <= d < i + 2 ==> !Divides(d, temp)
  {
    forall d: nat | 2 <= d < i + 2 && Divides(d, temp)
      ensures false
    {
      if d == i + 1 {
        assert d == 2 * (d / 2);
        DividesMultiple(2, d / 2);
        DividesTransitive(2, d, temp);
      }
    }
  }

  /** After the loops temp is 1 or a prime, and is never 2. */
  lemma FinishFactorisation(phi: nat, factors: map<nat, nat>, temp: nat, i: nat)
    requires Accounted(phi, factors, temp) && i >= 3 && i * i > temp
    requires forall d: nat :: 2 <= d < i ==> !Divides(d, temp)
    ensures temp > 2 ==> Accounted(phi, Increment(factors, temp), 1)
    ensures temp <= 2 ==> Accounted(phi, factors, 1)
  {
    assert temp != 2 by { assert !Divides(2, temp); }
    if temp > 2 {
      NoSmallDivisorIsPrime(temp, i);
      DivModUnique(temp, temp, 1, 0);
      DivideOut(phi, factors, temp, temp);
    } else {
      forall q: nat | IsPrime(q)
        ensures Valuation(q, temp) == 0
      {
        DivModUnique(1, q, 0, 1);
      }
    }
  }

  /** When every exponent sits in the dictionary, its keys are the prime
      divisors. */
  lemma ValuationsDetermineFactors(phi: nat, factors: map<nat, nat>)
    requires Accounted(phi, factors, 1) && phi >= 1
    ensures forall q :: q in factors ==> factors[q] == Valuation(q, phi)
    ensures forall q: nat :: IsPrime(q) ==> Count(factors, q) == Valuation(q, phi)
    ensures factors.Keys == PrimeDivisors(phi)
  {
    forall q: nat | IsPrime(q)
      ensures Count(factors, q) == Valuation(q, phi)
    {
      DivModUnique(1, q, 0, 1);
    }
    forall q | q in factors
      ensures q in PrimeDivisors(phi)
    {
      assert Valuation(q, phi) >= 1;
      DivisorAtMost(q, phi);
    }
    forall q | q in PrimeDivisors(phi)
      ensures q in factors
    {
      assert Valuation(q, phi) >= 1;
    }
  }

  /** 466 == 2 * 233 has the prime divisors 2 and 233. */
  lemma PrimeDivisors466()
    ensures PrimeDivisors(466) == {2, 233}
  {
    assert NoDivisorIn(233, 2, 16);
    PrimeByTrialDivision(233, 16);
    assert IsPrime(2);
    forall q | q in PrimeDivisors(466)
      ensures q == 2 || q == 233
    {
      assert Divides(q, 2 * 233);
      EuclidLemma(q, 2, 233);
      if Divides(q, 2) {
        PrimeDividesPrime(q, 2);
      } else {
        PrimeDividesPrime(q, 233);
      }
    }
    assert 2 in PrimeDivisors(466) && 233 in PrimeDivisors(466);
  }
}
