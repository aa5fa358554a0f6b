/** `check_prime` (MaheshGhogare.py:4-30): trial division by the primes up to
    19, then the Miller-Rabin test with twelve fixed witnesses.

    `MillerRabinAccepts` states what the function decides without its loops:
    the first small prime dividing n decides, and otherwise every witness below
    n must be a strong probable-prime witness for n. `CheckPrime` is the
    imperative routine, proved to compute exactly that predicate, and
    `PrimesAccepted` proves that no prime is ever rejected. */
module MillerRabin {
  import opened NumberTheory
  import opened Fermat

  /** The trial divisors, tried in this order. */
  const SmallPrimes: seq<int> := [2, 3, 5, 7, 11, 13, 17, 19]

  /** The fixed witness set, tried in this order. */
  const Witnesses: seq<nat> := [2, 3, 5, 7, 11, 13, 17, 19, 23, 29, 31, 37]

  /** The decomposition m == d * 2^s with d odd, for m >= 1. */
  function OddPart(m: nat): (r: (nat, nat))
    requires m >= 1
    ensures r.0 % 2 == 1 && r.0 * Pow(2, r.1) == m
    decreases m
  {
    if m % 2 == 1 then (m, 0)
    else
      var (d, s) := OddPart(m / 2);
      assert Pow(2, s + 1) == 2 * Pow(2, s);
      HalveProduct(d, Pow(2, s));
      (d, s + 1)
  }

  /** Witness a does not prove n composite: with n - 1 == d * 2^s, either
      a^d == 1 (mod n) or a^(d * 2^r) == n - 1 (mod n) for some r < s. */
  ghost predicate StrongProbablePrime(n: nat, a: nat, d: nat, s: nat)
    requires n >= 1
  {
    ModPow(a, d, n) == 1 || exists r: nat :: r < s && ModPow(a, d * Pow(2, r), n) == n - 1
  }

  /** What `check_prime(n)` returns, stated without its loops. */
  ghost predicate MillerRabinAccepts(n: int)
  {
    n >= 2 &&
    if exists q :: q in SmallPrimes && n % q == 0 then n in SmallPrimes
    else
      var (d, s) := OddPart(n - 1);
      forall a :: a in Witnesses && a < n ==> StrongProbablePrime(n, a, d, s)
  }

  /** The halving loop of MaheshGhogare.py:13-17, run on m == n - 1. */
  method SplitPowerOfTwo(m: nat) returns (d: nat, s: nat)
    requires m >= 1
    ensures d % 2 == 1 && d * Pow(2, s) == m
    ensures m % 2 == 0 ==> s >= 1
    ensures (d, s) == OddPart(m)
  {
    d, s := m, 0;
    while d % 2 == 0
      invariant d >= 1 && d * Pow(2, s) == m
      invariant OddPart(m) == (OddPart(d).0, OddPart(d).1 + s)
      invariant m % 2 == 0 && s == 0 ==> d % 2 == 0
      decreases d
    {
      HalveStep(m, d, s);
      d := d / 2;
      s := s + 1;
    }
  }

  /** One pass of the halving loop keeps d * 2^s == m and the odd part. */
  lemma HalveStep(m: nat, d: nat, s: nat)
    requires m >= 1 && d >= 1 && d % 2 == 0 && d * Pow(2, s) == m
    requires OddPart(m) == (OddPart(d).0, OddPart(d).1 + s)
    ensures d / 2 >= 1 && d / 2 * Pow(2, s + 1) == m
    ensures OddPart(m) == (OddPart(d / 2).0, OddPart(d / 2).1 + s + 1)
  {
    HalveProduct(d / 2, Pow(2, s));
  }

  /** h * (2 * x) == (h * 2) * x, the step both halving proofs rest on. */
  lemma HalveProduct(h: nat, x: nat)
    ensures h * (2 * x) == (h * 2) * x
  {
  }

  /** `check_prime(n)`. */
  method CheckPrime(n: int) returns (isPrime: bool)
    ensures isPrime == MillerRabinAccepts(n)
  {
    if n < 2 {
      return false;
    }
    for i := 0 to |SmallPrimes|
      invariant forall j :: 0 <= j < i ==> n % SmallPrimes[j] != 0
    {
      var q := SmallPrimes[i];
      if n % q == 0 {
        DivisibleBySmallPrime(n, q);
        return n == q;
      }
    }
    var d, s := SplitPowerOfTwo(n - 1);
    NoSmallPrimeDivides(n, d, s);
    for i := 0 to |Witnesses|
      invariant forall j :: 0 <= j < i && Witnesses[j] < n ==> StrongProbablePrime(n, Witnesses[j], d, s)
    {
      var a := Witnesses[i];
      if a >= n {
        continue;
      }
      var passes := WitnessPasses(n, a, d, s);
      if !passes {
        return false;
      }
    }
    return true;
  }

  /** The test of one witness a < n (MaheshGhogare.py:21-29): `x = pow(a, d, n)`,
      then up to s - 1 squarings looking for n - 1; `false` stands for the
      `else: return False` branch of the `for` loop. */
  method WitnessPasses(n: nat, a: nat, d: nat, s: nat) returns (passes: bool)
    requires n >= 2 && s >= 1
    ensures passes == StrongProbablePrime(n, a, d, s)
  {
    var x := ModPow(a, d, n);
    if x == 1 || x == n - 1 {
      assert d * Pow(2, 0) == d;
      return true;
    }
    var r := 1;
    while r < s
      invariant 1 <= r <= s
      invariant x == ModPow(a, d * Pow(2, r - 1), n)
      invariant forall t: nat :: t < r ==> ModPow(a, d * Pow(2, t), n) != n - 1
    {
      SquareStep(a, d, r, n);
      x := ModPow(x, 2, n);
      if x == n - 1 {
        break;
      }
      r := r + 1;
    }
    return x == n - 1;
  }

  /** One squaring in the inner loop moves from exponent d*2^(r-1) to d*2^r. */
  lemma SquareStep(a: nat, d: nat, r: nat, n: nat)
    requires r >= 1 && n >= 1
    ensures ModPow(ModPow(a, d * Pow(2, r - 1), n), 2, n) == ModPow(a, d * Pow(2, r), n)
  {
    var e := d * Pow(2, r - 1);
    assert d * Pow(2, r) == e * 2;
    ModPowIsPow(a, e, n);
    ModPowIsPow(ModPow(a, e, n), 2, n);
    ModPowIsPow(a, e * 2, n);
    PowMul(a, e, 2);
    PowMod(Pow(a, e), 2, n);
  }

  /** Below 2 nothing is accepted; a number divisible by one of the small
      primes is accepted exactly when it is that prime (MaheshGhogare.py:8-12). */
  lemma TrialDivisionDecides(n: int)
    ensures n < 2 ==> !MillerRabinAccepts(n)
    ensures forall q :: q in SmallPrimes && n >= 2 && n % q == 0 ==> (MillerRabinAccepts(n) <==> n == q)
  {
    forall q | q in SmallPrimes && n >= 2 && n % q == 0
      ensures MillerRabinAccepts(n) <==> n == q
    {
      SmallPrimeDivisorDecides(n, q);
    }
  }

  /** Once a small prime q divides n, `check_prime` answers n == q. */
  lemma DivisibleBySmallPrime(n: int, q: int)
    requires n >= 2 && q in SmallPrimes && n % q == 0
    ensures MillerRabinAccepts(n) == (n == q)
  {
    SmallPrimeDivisorDecides(n, q);
  }

  /** Without a small prime divisor, n - 1 is even and the answer is the
      verdict of the witnesses. */
  lemma NoSmallPrimeDivides(n: int, d: nat, s: nat)
    requires n >= 2 && forall j :: 0 <= j < |SmallPrimes| ==> n % SmallPrimes[j] != 0
    requires (d, s) == OddPart(n - 1) && d * Pow(2, s) == n - 1 && ((n - 1) % 2 == 0 ==> s >= 1)
    ensures s >= 1
    ensures MillerRabinAccepts(n) == forall a :: a in Witnesses && a < n ==> StrongProbablePrime(n, a, d, s)
  {
    NoSmallPrimeFactor(n);
    assert n % 2 != 0 by { assert SmallPrimes[0] == 2; }
  }

  /** The index-wise statement of the trial-division loop as a statement
      about membership. */
  lemma NoSmallPrimeFactor(n: int)
    requires forall j :: 0 <= j < |SmallPrimes| ==> n % SmallPrimes[j] != 0
    ensures !exists q :: q in SmallPrimes && n % q == 0
  {
    forall q | q in SmallPrimes
      ensures n % q != 0
    {
      var j :| 0 <= j < |SmallPrimes| && SmallPrimes[j] == q;
    }
  }

  /** Two different small primes never divide one another. */
  lemma SmallPrimeDivisorDecides(n: int, q: int)
    requires n >= 2 && q in SmallPrimes && n % q == 0
    ensures n in SmallPrimes <==> n == q
  {
  }

  /** Each step of the squaring chain a^d, a^(2d), ..., a^(2^t d) that ends
      at 1 modulo a prime, having not started at 1, passes through n - 1. */
  lemma {:induction false} SquaringChain(n: nat, a: nat, d: nat, t: nat)
    requires IsPrime(n)
    requires ModPow(a, d, n) != 1 && ModPow(a, d * Pow(2, t), n) == 1
    ensures exists r: nat :: r < t && ModPow(a, d * Pow(2, r), n) == n - 1
    decreases t
  {
    if t > 0 {
      var y := ModPow(a, d * Pow(2, t - 1), n);
      SquareStep(a, d, t, n);
      ModPowIsPow(y, 2, n);
      PowTwo(y);
      assert (y * y) % n == 1;
      SquareRootOfOne(n, y);
      if y != n - 1 {
        SquaringChain(n, a, d, t - 1);
        var r: nat :| r < t - 1 && ModPow(a, d * Pow(2, r), n) == n - 1;
        assert r < t;
      } else {
        assert (t - 1) < t && ModPow(a, d * Pow(2, t - 1), n) == n - 1;
      }
    }
  }

  /** Miller-Rabin never rejects a prime: every witness below a prime n is a
      strong probable-prime witness, by Fermat's little theorem and the
      square roots of 1 modulo a prime. */
  lemma PrimePassesWitness(n: nat, a: nat, d: nat, s: nat)
    requires IsPrime(n) && 1 <= a < n && d * Pow(2, s) == n - 1
    ensures StrongProbablePrime(n, a, d, s)
  {
    DivModUnique(a, n, 0, a);
    FermatLittle(n, a);
    ModPowIsPow(a, d * Pow(2, s), n);
    if ModPow(a, d, n) != 1 {
      SquaringChain(n, a, d, s);
    }
  }

  /** `check_prime` accepts every prime. */
  lemma PrimesAccepted(n: int)
    ensures IsPrime(n) ==> MillerRabinAccepts(n)
  {
    if IsPrime(n) {
      if exists q :: q in SmallPrimes && n % q == 0 {
        var q :| q in SmallPrimes && n % q == 0;
        if q != n {
          assert Divides(q, n);
          DivisorAtMost(q, n);
        }
      } else {
        var (d, s) := OddPart(n - 1);
        forall a | a in Witnesses && a < n
          ensures StrongProbablePrime(n, a, d, s)
        {
          PrimePassesWitness(n, a, d, s);
        }
      }
    }
  }

  /** 10 is rejected by trial division (MaheshGhogare.py:10-12). */
  lemma TenRejected()
    ensures !MillerRabinAccepts(10)
  {
    assert 2 in SmallPrimes && 10 % 2 == 0;
  }

  /** 467, the modulus of the example, is prime and therefore accepted. */
  lemma Prime467()
    ensures IsPrime(467) && MillerRabinAccepts(467)
  {
    assert NoDivisorIn(467, 12, 22);
    PrimeByTrialDivision(467, 22);
    PrimesAccepted(467);
  }
}
