/** `find_primitive_roots(p)` (MaheshGhogare.py:32-55). After the primality
    test and the factorisation of phi == p - 1, it scans g == 2, 3, ..., p - 1
    for the first g with g^(phi / f) != 1 (mod p) for every prime factor f, and
    returns the sorted residues g^k mod p for 1 <= k < phi with gcd(k, phi) == 1.

    For a prime p >= 3 the result is proved to be exactly the set of residues
    of multiplicative order p - 1, strictly ascending, and as long as Euler's
    totient of p - 1 whenever it is not empty. */
module PrimitiveRoots {
  import opened NumberTheory
  import opened Fermat
  import opened Sorting
  import opened MillerRabin
  import opened Factorization

  /** The test of MaheshGhogare.py:53: `all(pow(g, phi // f, p) != 1 for f in factors)`. */
  predicate PassesRootTest(g: nat, p: nat, keys: set<nat>)
    requires p >= 1
    requires forall f :: f in keys ==> f >= 1
  {
    forall f :: f in keys ==> ModPow(g, (p - 1) / f, p) != 1
  }

  /** The root test with each fast exponentiation read as the power it stands
      for: g passes iff g^(phi / f) mod p != 1 for every f in keys. */
  lemma RootTestMeaning(g: nat, p: nat, keys: set<nat>)
    requires p >= 1
    requires forall f :: f in keys ==> f >= 1
    ensures PassesRootTest(g, p, keys) <==> forall f :: f in keys ==> Pow(g, (p - 1) / f) % p != 1
  {
    forall f | f in keys {
      TestPowerAgrees(g, p, f);
    }
  }

  lemma TestPowerAgrees(g: nat, p: nat, f: nat)
    requires p >= 1 && f >= 1
    ensures ModPow(g, (p - 1) / f, p) == Pow(g, (p - 1) / f) % p
  {
    ModPowIsPow(g, (p - 1) / f, p);
  }

  /** The comprehension of MaheshGhogare.py:54 over k < bound:
      `[pow(g, k, p) for k in range(1, bound) if math.gcd(k, phi) == 1]`. */
  function CoprimePowers(g: nat, p: nat, phi: nat, bound: nat): (r: seq<int>)
    requires p >= 1
    ensures forall x :: x in r ==> 0 <= x < p
    decreases bound
  {
    if bound <= 1 then []
    else
      var prev := CoprimePowers(g, p, phi, bound - 1);
      if Gcd(bound - 1, phi) == 1 then prev + [ModPow(g, bound - 1, p)] else prev
  }

  /** x is g^k mod p for some exponent 1 <= k < bound coprime to phi. */
  ghost predicate IsCoprimePower(x: int, g: nat, p: nat, phi: nat, bound: nat)
    requires p >= 1
  {
    exists k: nat :: 1 <= k < bound && Gcd(k, phi) == 1 && x == ModPow(g, k, p)
  }

  /** r is a primitive root modulo p: a nonzero residue none of whose powers
      r^1, ..., r^(p-2) is 1. */
  ghost predicate HasFullOrder(r: int, p: nat)
  {
    1 <= r < p && forall e: nat :: 1 <= e < p - 1 ==> Pow(r, e) % p != 1
  }

  /** Euler's totient: the number of k in 1..n coprime to n. */
  ghost function Totient(n: nat): nat
  {
    |set k: nat | 1 <= k <= n && Gcd(k, n) == 1|
  }

  /** The exponents 1 <= k < bound coprime to phi. */
  ghost function CoprimeBelow(phi: nat, bound: nat): set<nat>
  {
    set k: nat | 1 <= k < bound && Gcd(k, phi) == 1
  }

  /** `find_primitive_roots(p)`. */
  method FindPrimitiveRoots(p: int) returns (roots: seq<int>)
    ensures !MillerRabinAccepts(p) ==> roots == []
    ensures Sorted(roots)
    ensures forall r :: r in roots ==> 0 <= r < p
    ensures roots != [] ==> p >= 3 && |roots| == Totient(p - 1)
    ensures IsPrime(p) ==> StrictlySorted(roots)
    ensures IsPrime(p) ==> forall r :: r in roots ==> 1 <= r < p && PassesRootTest(r, p, PrimeDivisors(p - 1))
    ensures IsPrime(p) && p >= 3 ==> forall r :: r in roots <==> HasFullOrder(r, p)
  {
    var accepted := CheckPrime(p);
    PrimesAccepted(p);
    if !accepted {
      return [];
    }
    var n: nat := p;
    var phi: nat := n - 1;
    var factors := FactorTotient(phi);
    ghost var keys := PrimeDivisors(phi);
    assert factors.Keys == keys;
    PrimeDivisorsPositive(phi);
    for g := 2 to n
      invariant forall h: nat :: 2 <= h < g ==> !PassesRootTest(h, n, keys)
    {
      if PassesRootTest(g, n, factors.Keys) {
        roots := CollectRoots(g, n, phi);
        return;
      }
    }
    NoRootFound(n, keys);
    return [];
  }

  /** The answer built from the first g passing the test (MaheshGhogare.py:54):
      the sorted comprehension of the powers g^k with k coprime to phi. */
  method CollectRoots(g: nat, n: nat, phi: nat) returns (roots: seq<int>)
    requires 2 <= g < n && phi == n - 1 && PassesRootTest(g, n, PrimeDivisors(phi))
    ensures roots == Sort(CoprimePowers(g, n, phi, phi))
    ensures Sorted(roots)
    ensures forall r :: r in roots ==> 0 <= r < n
    ensures roots != [] ==> n >= 3 && |roots| == Totient(n - 1)
    ensures IsPrime(n) ==> StrictlySorted(roots)
    ensures IsPrime(n) ==> forall r :: r in roots ==> 1 <= r < n && PassesRootTest(r, n, PrimeDivisors(n - 1))
    ensures IsPrime(n) ==> forall r :: r in roots <==> HasFullOrder(r, n)
  {
    roots := Sort(CoprimePowers(g, n, phi, phi));
    RootsOfGenerator(g, n, roots);
    if IsPrime(n) {
      RootsOfGeneratorModPrime(g, n, roots);
    }
  }

  /** The smallest moduli: 2 has no g in range(2, 2) to try, so the answer is
      empty (although 1 is a primitive root modulo 2); 3 has the single
      primitive root 2; 10 fails the primality test. */
  method SmallModuli() returns (r2: seq<int>, r3: seq<int>, r10: seq<int>)
    ensures r2 == [] && r3 == [2] && r10 == []
  {
    r2 := FindPrimitiveRoots(2);
    r3 := FindPrimitiveRoots(3);
    RootsOfThree();
    OnlyValue(r3, 2);
    r10 := FindPrimitiveRoots(10);
    TenRejected();
  }

  /** 3 is prime and 2 is its only primitive root. */
  lemma RootsOfThree()
    ensures IsPrime(3)
    ensures forall r :: HasFullOrder(r, 3) <==> r == 2
  {
    assert Pow(1, 1) == 1;
    assert Pow(2, 1) == 2;
  }

  /** The prime divisors are positive, so `phi // f` is defined. */
  lemma PrimeDivisorsPositive(n: nat)
    ensures forall f :: f in PrimeDivisors(n) ==> f >= 1
  {
  }

  /** Sorting keeps the values and the length of the comprehension. */
  lemma SortKeepsValues(powers: seq<int>, roots: seq<int>)
    requires roots == Sort(powers)
    ensures forall x :: x in roots <==> x in powers
    ensures |roots| == |powers|
  {
    assert multiset(roots) == multiset(powers);
    forall x
      ensures x in roots <==> x in powers
    {
      assert x in roots <==> x in multiset(roots);
      assert x in powers <==> x in multiset(powers);
    }
    assert |multiset(roots)| == |multiset(powers)|;
  }

  /** Range and size of the list built from the first g passing the test. */
  lemma RootsOfGenerator(g: nat, n: nat, roots: seq<int>)
    requires 2 <= g < n
    requires roots == Sort(CoprimePowers(g, n, n - 1, n - 1))
    ensures forall r :: r in roots ==> 0 <= r < n
    ensures roots != [] ==> n >= 3 && |roots| == Totient(n - 1)
  {
    var phi: nat := n - 1;
    var powers := CoprimePowers(g, n, phi, phi);
    SortKeepsValues(powers, roots);
    CoprimePowersCount(g, n, phi, phi);
    if roots != [] {
      CoprimeBelowIsTotient(phi);
    }
  }

  /** Modulo a prime, the list built from the first g passing the test holds
      each primitive root exactly once, in ascending order. */
  lemma RootsOfGeneratorModPrime(g: nat, n: nat, roots: seq<int>)
    requires IsPrime(n) && 2 <= g < n && PassesRootTest(g, n, PrimeDivisors(n - 1))
    requires roots == Sort(CoprimePowers(g, n, n - 1, n - 1))
    ensures StrictlySorted(roots)
    ensures forall r :: r in roots <==> HasFullOrder(r, n)
    ensures forall r :: r in roots ==> 1 <= r < n && PassesRootTest(r, n, PrimeDivisors(n - 1))
  {
    RootCriterion(g, n);
    RootsStrictlySorted(g, n);
    RootsAreFullOrder(g, n, roots);
    RootsPassTest(n, roots);
  }

  /** The powers of a primitive root for distinct exponents below p - 1 are
      distinct, so the sorted list has no repeats. */
  lemma RootsStrictlySorted(g: nat, n: nat)
    requires IsPrime(n) && HasFullOrder(g, n)
    ensures StrictlySorted(Sort(CoprimePowers(g, n, n - 1, n - 1)))
  {
    CoprimePowersDistinct(g, n, n - 1);
    SortDistinctIsStrict(CoprimePowers(g, n, n - 1, n - 1));
  }

  /** The coprime powers of a primitive root are exactly the primitive roots. */
  lemma RootsAreFullOrder(g: nat, n: nat, roots: seq<int>)
    requires IsPrime(n) && n >= 3 && HasFullOrder(g, n)
    requires roots == Sort(CoprimePowers(g, n, n - 1, n - 1))
    ensures forall r :: r in roots <==> HasFullOrder(r, n)
  {
    var powers := CoprimePowers(g, n, n - 1, n - 1);
    SortKeepsValues(powers, roots);
    forall r | r in powers
      ensures HasFullOrder(r, n)
    {
      CoprimePowerIsRoot(g, n, r);
    }
    forall r | HasFullOrder(r, n)
      ensures r in powers
    {
      FullOrderIsCoprimePower(g, n, r);
    }
  }

  /** Every primitive root in the list passes the test of MaheshGhogare.py:53. */
  lemma RootsPassTest(n: nat, roots: seq<int>)
    requires IsPrime(n) && forall r :: r in roots ==> HasFullOrder(r, n)
    ensures forall r :: r in roots ==> 1 <= r < n && PassesRootTest(r, n, PrimeDivisors(n - 1))
  {
    forall r | r in roots
      ensures 1 <= r < n && PassesRootTest(r, n, PrimeDivisors(n - 1))
    {
      RootCriterion(r, n);
    }
  }

  /** Each value of the comprehension for a primitive root g is a primitive root. */
  lemma CoprimePowerIsRoot(g: nat, n: nat, r: int)
    requires IsPrime(n) && HasFullOrder(g, n) && r in CoprimePowers(g, n, n - 1, n - 1)
    ensures HasFullOrder(r, n)
  {
    var phi: nat := n - 1;
    CoprimePowersMembers(g, n, phi, phi);
    assert IsCoprimePower(r, g, n, phi, phi);
    var k: nat :| 1 <= k < phi && Gcd(k, phi) == 1 && r == ModPow(g, k, n);
    CoprimePowerHasFullOrder(g, n, k);
  }

  /** When no g in 2..n-1 passes the test, a prime n >= 3 has no primitive
      root, so the empty answer is the right one. */
  lemma NoRootFound(n: nat, keys: set<nat>)
    requires n >= 2 && keys == PrimeDivisors(n - 1)
    requires forall h: nat :: 2 <= h < n ==> !PassesRootTest(h, n, keys)
    ensures IsPrime(n) && n >= 3 ==> forall r :: !HasFullOrder(r, n)
  {
    if IsPrime(n) && n >= 3 {
      forall r | HasFullOrder(r, n)
        ensures false
      {
        FullOrderAboveOne(r, n);
        RootCriterion(r, n);
      }
    }
  }

  /** g^e for the exponents e < n, as residues modulo p. */
  ghost function PowersBelow(g: nat, p: nat, n: nat): set<nat>
    requires p >= 1
    decreases n
  {
    if n == 0 then {} else PowersBelow(g, p, n - 1) + {Pow(g, n - 1) % p}
  }

  /** The residues 1, ..., n - 1. */
  ghost function NonZeroBelow(n: nat): (r: set<nat>)
    ensures forall x :: x in r <==> 1 <= x < n
    ensures |r| == if n == 0 then 0 else n - 1
    decreases n
  {
    if n <= 1 then {} else NonZeroBelow(n - 1) + {n - 1}
  }

  // ---------------------------------------------------------------------
  // Orders modulo a prime

  /** The values of the comprehension are the residues g^k for the exponents
      1 <= k < bound coprime to phi. */
  lemma {:induction false} CoprimePowersMembers(g: nat, p: nat, phi: nat, bound: nat)
    requires p >= 1
    ensures forall x :: x in CoprimePowers(g, p, phi, bound) <==> IsCoprimePower(x, g, p, phi, bound)
    decreases bound
  {
    if bound > 1 {
      CoprimePowersMembers(g, p, phi, bound - 1);
      var prev := CoprimePowers(g, p, phi, bound - 1);
      var last := bound - 1;
      assert CoprimePowers(g, p, phi, bound) == if Gcd(last, phi) == 1 then prev + [ModPow(g, last, p)] else prev;
      forall x
        ensures x in CoprimePowers(g, p, phi, bound) <==> IsCoprimePower(x, g, p, phi, bound)
      {
        if IsCoprimePower(x, g, p, phi, bound) {
          var k: nat :| 1 <= k < bound && Gcd(k, phi) == 1 && x == ModPow(g, k, p);
          if k < last {
            assert IsCoprimePower(x, g, p, phi, last);
          }
        }
        if x in prev {
          var k: nat :| 1 <= k < last && Gcd(k, phi) == 1 && x == ModPow(g, k, p);
          assert 1 <= k < bound;
        }
      }
    }
  }

  /** A primitive root modulo p >= 3 is not 1. */
  lemma FullOrderAboveOne(r: int, p: nat)
    requires p >= 3 && HasFullOrder(r, p)
    ensures r >= 2
  {
    assert Pow(r, 1) == r;
    DivModUnique(1, p, 0, 1);
  }

  /** A residue 1 <= g < p is not divisible by p. */
  lemma UnitNotDivisible(g: nat, p: nat)
    requires 1 <= g < p
    ensures !Divides(p, g) && g % p != 0
  {
    DivModUnique(g, p, 0, g);
  }

  /** The smallest positive exponent bringing g back to 1 exists below any
      such exponent e. */
  lemma {:induction false} LeastExponent(g: nat, p: nat, e: nat) returns (o: nat)
    requires p >= 1 && e >= 1 && Pow(g, e) % p == 1
    ensures 1 <= o <= e && Pow(g, o) % p == 1
    ensures forall j: nat :: 1 <= j < o ==> Pow(g, j) % p != 1
    decreases e
  {
    if exists j: nat :: 1 <= j < e && Pow(g, j) % p == 1 {
      var j: nat :| 1 <= j < e && Pow(g, j) % p == 1;
      o := LeastExponent(g, p, j);
    } else {
      o := e;
    }
  }

  /** The criterion the scan applies (MaheshGhogare.py:53): modulo a prime p,
      a nonzero residue g is a primitive root exactly when
      g^((p-1)/q) != 1 for every prime divisor q of p - 1. */
  lemma RootCriterion(g: nat, p: nat)
    requires IsPrime(p) && 1 <= g < p
    ensures PassesRootTest(g, p, PrimeDivisors(p - 1)) <==> HasFullOrder(g, p)
  {
    var phi: nat := p - 1;
    if HasFullOrder(g, p) {
      forall q | q in PrimeDivisors(phi)
        ensures ModPow(g, phi / q, p) != 1
      {
        QuotientBounds(phi, q);
        ModPowIsPow(g, phi / q, p);
      }
    } else {
      var e: nat :| 1 <= e < phi && Pow(g, e) % p == 1;
      var q := ShortCycleFailsTest(g, p, e);
      ModPowIsPow(g, phi / q, p);
      assert ModPow(g, phi / q, p) == 1;
    }
  }

  /** If g^e == 1 for some 1 <= e < p - 1, the least such e is a proper
      divisor of p - 1, and some prime q of p - 1 has g^((p-1)/q) == 1. */
  lemma ShortCycleFailsTest(g: nat, p: nat, e: nat) returns (q: nat)
    requires IsPrime(p) && 1 <= g < p && 1 <= e < p - 1 && Pow(g, e) % p == 1
    ensures q in PrimeDivisors(p - 1) && Pow(g, (p - 1) / q) % p == 1
  {
    var phi: nat := p - 1;
    var o := LeastExponent(g, p, e);
    var m := LeastExponentDivides(g, p, o);
    var m2;
    q, m2 := PrimeOfCofactor(phi, o, m);
    PowMultipleOfUnit(g, o, m2, p);
  }

  /** When phi == o * m with 1 <= o < phi, some prime q divides the cofactor
      m, so phi / q is the multiple o * (m / q) of o. */
  lemma PrimeOfCofactor(phi: nat, o: nat, m: nat) returns (q: nat, m2: nat)
    requires phi == o * m && 1 <= o < phi
    ensures q in PrimeDivisors(phi) && phi / q == o * m2
  {
    assert m >= 2 by {
      if m <= 1 { MulMonotone(o, o, m, 1); }
    }
    q := PrimeDivisorExists(m);
    m2 := m / q;
    assert m == q * m2;
    assert phi == (o * m2) * q;
    DivModUnique(phi, q, o * m2, 0);
    DivisorAtMost(q, phi);
  }

  /** The least exponent o with g^o == 1 divides p - 1: p - 1 == o * m. */
  lemma LeastExponentDivides(g: nat, p: nat, o: nat) returns (m: nat)
    requires IsPrime(p) && 1 <= g < p && o >= 1 && Pow(g, o) % p == 1
    requires forall j: nat :: 1 <= j < o ==> Pow(g, j) % p != 1
    ensures p - 1 == o * m
  {
    var phi: nat := p - 1;
    UnitNotDivisible(g, p);
    FermatLittle(p, g);
    PowReduceExponent(g, o, phi, p);
    var r := phi % o;
    assert r == 0;
    m := phi / o;
    DivModUnique(phi, o, m, r);
    assert phi == m * o + r;
  }

  /** For a divisor q >= 2 of phi >= 1, 1 <= phi / q < phi. */
  lemma QuotientBounds(phi: nat, q: nat)
    requires phi >= 1 && q >= 2 && Divides(q, phi)
    ensures 1 <= phi / q < phi
  {
    var m := phi / q;
    assert phi == m * q;
    if m >= phi { MulMonotone(phi, m, 2, q); }
  }

  /** An exponent bringing a primitive root back to 1 is a multiple of p - 1. */
  lemma OrderDivides(g: nat, p: nat, x: nat)
    requires IsPrime(p) && HasFullOrder(g, p) && Pow(g, x) % p == 1
    ensures x % (p - 1) == 0
  {
    UnitNotDivisible(g, p);
    FermatLittle(p, g);
    PowReduceExponent(g, p - 1, x, p);
  }

  /** The powers g^0, ..., g^(p-2) of a primitive root are pairwise different. */
  lemma PowersDistinct(g: nat, p: nat, i: nat, j: nat)
    requires IsPrime(p) && HasFullOrder(g, p) && i < j < p - 1
    ensures Pow(g, i) % p != Pow(g, j) % p
  {
    if Pow(g, i) % p == Pow(g, j) % p {
      UnitNotDivisible(g, p);
      PrimeNotDividesPow(p, g, i);
      PowAdd(g, i, j - i);
      assert i + (j - i) == j;
      CancelUnit(p, Pow(g, i), Pow(g, j - i));
    }
  }

  /** A power g^k of a primitive root with gcd(k, p - 1) == 1 is again a
      primitive root. */
  lemma CoprimePowerHasFullOrder(g: nat, p: nat, k: nat)
    requires IsPrime(p) && HasFullOrder(g, p) && Gcd(k, p - 1) == 1
    ensures HasFullOrder(ModPow(g, k, p), p)
  {
    var r := ModPow(g, k, p);
    ModPowIsPow(g, k, p);
    UnitNotDivisible(g, p);
    PrimeNotDividesPow(p, g, k);
    forall e: nat | 1 <= e < p - 1
      ensures Pow(r, e) % p != 1
    {
      PowerOfCoprimePower(g, p, k, e);
    }
  }

  /** (g^k)^e == 1 would put p - 1 in k * e, hence in e. */
  lemma PowerOfCoprimePower(g: nat, p: nat, k: nat, e: nat)
    requires IsPrime(p) && HasFullOrder(g, p) && Gcd(k, p - 1) == 1 && 1 <= e < p - 1
    ensures Pow(Pow(g, k) % p, e) % p != 1
  {
    if Pow(Pow(g, k) % p, e) % p == 1 {
      var x := Pow(g, k);
      var t := k * e;
      PowMod(x, e, p);
      assert Pow(x, e) % p == 1;
      PowMul(g, k, e);
      assert Pow(g, t) % p == 1;
      OrderDivides(g, p, t);
      assert Divides(p - 1, k * e);
      CoprimeDividesProduct(p - 1, k, e);
      DivisorAtMost(p - 1, e);
    }
  }

  /** A primitive root g reaches every nonzero residue with an exponent below p - 1. */
  lemma GeneratorCovers(g: nat, p: nat, r: nat) returns (j: nat)
    requires IsPrime(p) && HasFullOrder(g, p) && 1 <= r < p
    ensures j < p - 1 && Pow(g, j) % p == r
  {
    PowersBelowFacts(g, p, p - 1);
    SubsetSameSize(PowersBelow(g, p, p - 1), NonZeroBelow(p));
    j := PowersBelowMember(g, p, p - 1, r);
  }

  /** The first n powers of a primitive root are n different nonzero residues. */
  lemma {:induction false} PowersBelowFacts(g: nat, p: nat, n: nat)
    requires IsPrime(p) && HasFullOrder(g, p) && n <= p - 1
    ensures |PowersBelow(g, p, n)| == n
    ensures PowersBelow(g, p, n) <= NonZeroBelow(p)
    decreases n
  {
    if n > 0 {
      PowersBelowFacts(g, p, n - 1);
      var x := Pow(g, n - 1) % p;
      if x in PowersBelow(g, p, n - 1) {
        var j := PowersBelowMember(g, p, n - 1, x);
        PowersDistinct(g, p, j, n - 1);
      }
      UnitNotDivisible(g, p);
      PrimeNotDividesPow(p, g, n - 1);
    }
  }

  /** Every element of PowersBelow(g, p, n) is some g^j with j < n. */
  lemma {:induction false} PowersBelowMember(g: nat, p: nat, n: nat, x: nat) returns (j: nat)
    requires p >= 1 && x in PowersBelow(g, p, n)
    ensures j < n && Pow(g, j) % p == x
    decreases n
  {
    if x == Pow(g, n - 1) % p {
      j := n - 1;
    } else {
      j := PowersBelowMember(g, p, n - 1, x);
    }
  }

  /** A subset of a finite set with as many elements is the whole set. */
  lemma SubsetSameSize(a: set<nat>, b: set<nat>)
    requires a <= b && |a| == |b|
    ensures a == b
  {
    if a != b {
      var x :| x in b && x !in a;
      SubsetSize(a, b - {x});
    }
  }

  lemma {:induction false} SubsetSize(a: set<nat>, b: set<nat>)
    requires a <= b
    ensures |a| <= |b|
    decreases a
  {
    if a != {} {
      var y :| y in a;
      SubsetSize(a - {y}, b - {y});
    }
  }

  /** Every primitive root is a power g^k, gcd(k, p - 1) == 1, of the
      primitive root g: it appears in the list the scan returns. */
  lemma FullOrderIsCoprimePower(g: nat, p: nat, r: int)
    requires IsPrime(p) && p >= 3 && HasFullOrder(g, p) && HasFullOrder(r, p)
    ensures r in CoprimePowers(g, p, p - 1, p - 1)
  {
    var j := GeneratorCovers(g, p, r);
    FullOrderAboveOne(r, p);
    if j == 0 {
      DivModUnique(1, p, 0, 1);
    }
    GcdDivides(j, p - 1);
    var d := Gcd(j, p - 1);
    if d != 1 {
      SharedFactorShortensOrder(g, p, j, d);
    }
    CoprimePowersMembers(g, p, p - 1, p - 1);
    ModPowIsPow(g, j, p);
    assert IsCoprimePower(r, g, p, p - 1, p - 1);
  }

  /** A common factor d >= 2 of j and p - 1 makes (g^j)^((p-1)/d) == 1. */
  lemma SharedFactorShortensOrder(g: nat, p: nat, j: nat, d: nat)
    requires IsPrime(p) && 1 <= g < p && d >= 2 && Divides(d, j) && Divides(d, p - 1)
    ensures 1 <= (p - 1) / d < p - 1 && Pow(Pow(g, j) % p, (p - 1) / d) % p == 1
  {
    var phi: nat := p - 1;
    var e := phi / d;
    QuotientBounds(phi, d);
    var jd := j / d;
    assert j == jd * d;
    assert phi == e * d;
    assert j * e == phi * jd;
    UnitNotDivisible(g, p);
    FermatLittle(p, g);
    PowMultipleOfUnit(g, phi, jd, p);
    PowMul(g, j, e);
    PowMod(Pow(g, j), e, p);
  }

  // ---------------------------------------------------------------------
  // Size and order of the result

  /** The comprehension yields one residue per exponent coprime to phi. */
  lemma {:induction false} CoprimePowersCount(g: nat, p: nat, phi: nat, bound: nat)
    requires p >= 1
    ensures |CoprimePowers(g, p, phi, bound)| == |CoprimeBelow(phi, bound)|
    decreases bound
  {
    if bound <= 1 {
      assert CoprimeBelow(phi, bound) == {};
    } else {
      CoprimePowersCount(g, p, phi, bound - 1);
      if Gcd(bound - 1, phi) == 1 {
        assert CoprimeBelow(phi, bound) == CoprimeBelow(phi, bound - 1) + {bound - 1};
      } else {
        assert CoprimeBelow(phi, bound) == CoprimeBelow(phi, bound - 1);
      }
    }
  }

  /** For phi >= 2, phi itself is not coprime to phi, so counting the
      exponents below phi gives Euler's totient. */
  lemma CoprimeBelowIsTotient(phi: nat)
    requires phi >= 2
    ensures |CoprimeBelow(phi, phi)| == Totient(phi)
  {
    assert Gcd(phi, phi) == phi by { assert phi % phi == 0; }
    assert CoprimeBelow(phi, phi) == set k: nat | 1 <= k <= phi && Gcd(k, phi) == 1;
  }

  /** The powers in the comprehension of a primitive root are all different. */
  lemma CoprimePowersDistinct(g: nat, p: nat, phi: nat)
    requires IsPrime(p) && HasFullOrder(g, p) && phi == p - 1
    ensures Distinct(CoprimePowers(g, p, phi, phi))
  {
    CoprimePowersDistinctBelow(g, p, phi, phi);
  }

  lemma {:induction false} CoprimePowersDistinctBelow(g: nat, p: nat, phi: nat, bound: nat)
    requires IsPrime(p) && HasFullOrder(g, p) && phi == p - 1 && bound <= phi
    ensures Distinct(CoprimePowers(g, p, phi, bound))
    decreases bound
  {
    if bound > 1 {
      var last := bound - 1;
      CoprimePowersDistinctBelow(g, p, phi, last);
      var prev := CoprimePowers(g, p, phi, last);
      if Gcd(last, phi) == 1 {
        var x := ModPow(g, last, p);
        if x in prev {
          CoprimePowersMembers(g, p, phi, last);
          var k: nat :| 1 <= k < last && Gcd(k, phi) == 1 && x == ModPow(g, k, p);
          ModPowIsPow(g, k, p);
          ModPowIsPow(g, last, p);
          PowersDistinct(g, p, k, last);
        }
        DistinctAppend(prev, x);
      }
    }
  }

  /** Appending a new value keeps a sequence free of repeats. */
  lemma DistinctAppend(s: seq<int>, x: int)
    requires Distinct(s) && x !in s
    ensures Distinct(s + [x])
  {
  }

  /** 2 is a primitive root modulo 467: 466 == 2 * 233, and neither 2^233
      nor 2^2 is 1 modulo 467. */
  lemma TwoIsPrimitiveRootOf467()
    ensures HasFullOrder(2, 467)
  {
    // square-and-multiply on the concrete numbers, one step at a time
    ModPowOddStep(264, 1, 467, 1, 0, 264);
    ModPowEvenStep(369, 2, 467, 264, 291, 264);
    ModPowOddStep(369, 3, 467, 264, 208, 280);
    ModPowEvenStep(52, 6, 467, 280, 5, 369);
    ModPowOddStep(52, 7, 467, 280, 31, 83);
    ModPowEvenStep(156, 14, 467, 83, 52, 52);
    ModPowEvenStep(256, 28, 467, 83, 140, 156);
    ModPowOddStep(256, 29, 467, 83, 45, 233);
    ModPowEvenStep(16, 58, 467, 233, 0, 256);
    ModPowEvenStep(4, 116, 467, 233, 0, 16);
    ModPowEvenStep(2, 232, 467, 233, 0, 4);
    ModPowOddStep(2, 233, 467, 233, 0, 466);
    ModPowOddStep(4, 1, 467, 1, 0, 4);
    ModPowEvenStep(2, 2, 467, 4, 0, 4);
    assert PassesRootTest(2, 467, {2, 233});
    Prime467();
    PrimeDivisors466();
    RootCriterion(2, 467);
  }
}
