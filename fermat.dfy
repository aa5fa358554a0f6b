/** Fermat's little theorem, proved through the binomial theorem, and its
    consequence that 1 has only the square roots 1 and p - 1 modulo a prime p.
    Decryption in ElGamal (inverse as s^(p-2)), the Miller-Rabin test and the
    primitive-root criterion all rely on these two facts. */
module Fermat {
  import opened NumberTheory

  /** Binomial coefficients by Pascal's rule. */
  function Binom(n: nat, k: nat): nat
    decreases n
  {
    if k == 0 then 1
    else if n == 0 then 0
    else Binom(n - 1, k - 1) + Binom(n - 1, k)
  }

  /** The sum of Binom(n, i) * x^i over 0 <= i < j. */
  function BinomSum(n: nat, x: nat, j: nat): nat
    decreases j
  {
    if j == 0 then 0 else BinomSum(n, x, j - 1) + Binom(n, j - 1) * Pow(x, j - 1)
  }

  lemma {:induction false} BinomBeyond(n: nat, k: nat)
    requires k > n
    ensures Binom(n, k) == 0
    decreases n
  {
    if n > 0 {
      BinomBeyond(n - 1, k - 1);
      BinomBeyond(n - 1, k);
    }
  }

  /** The absorption identity k * C(n, k) == n * C(n-1, k-1). */
  lemma {:induction false} Absorption(n: nat, k: nat)
    requires n >= 1 && k >= 1
    ensures k * Binom(n, k) == n * Binom(n - 1, k - 1)
    decreases n
  {
    if n == 1 {
      if k > 1 {
        BinomBeyond(1, k);
        BinomBeyond(0, k - 1);
      }
    } else if k == 1 {
      BinomOne(n);
    } else {
      var a, b := Binom(n - 1, k - 1), Binom(n - 1, k);
      var c, d := Binom(n - 2, k - 2), Binom(n - 2, k - 1);
      assert Binom(n, k) == a + b;
      assert a == c + d;
      Absorption(n - 1, k);
      Absorption(n - 1, k - 1);
      AbsorptionAlgebra(n, k, a, b, c, d);
    }
  }

  /** The arithmetic step of Absorption, kept apart from Binom. */
  lemma AbsorptionAlgebra(n: int, k: int, a: int, b: int, c: int, d: int)
    requires a == c + d && k * b == (n - 1) * d && (k - 1) * a == (n - 1) * c
    ensures k * (a + b) == n * a
  {
    Distribute(k, a, b);
    Distribute(n - 1, c, d);
    assert k * a == (k - 1) * a + a;
    assert n * a == (n - 1) * a + a;
  }

  lemma Distribute(a: int, b: int, c: int)
    ensures a * (b + c) == a * b + a * c
  {
  }

  lemma {:induction false} BinomOne(n: nat)
    ensures Binom(n, 1) == n
    decreases n
  {
    if n > 0 { BinomOne(n - 1); }
  }

  /** A prime divides every binomial coefficient C(p, k) with 0 < k < p. */
  lemma PrimeDividesBinom(p: nat, k: nat)
    requires IsPrime(p) && 0 < k < p
    ensures Divides(p, Binom(p, k))
  {
    Absorption(p, k);
    DividesMultiple(p, Binom(p - 1, k - 1));
    assert Divides(p, k * Binom(p, k));
    if Divides(p, k) {
      DivisorAtMost(p, k);
    }
    EuclidLemma(p, k, Binom(p, k));
  }

  /** Pascal's rule lifted to the partial sums. */
  lemma {:induction false} BinomSumStep(n: nat, x: nat, j: nat)
    ensures BinomSum(n + 1, x, j + 1) == BinomSum(n, x, j + 1) + x * BinomSum(n, x, j)
    decreases j
  {
    if j > 0 {
      BinomSumStep(n, x, j - 1);
      var b1, b2 := Binom(n, j - 1), Binom(n, j);
      var q := Pow(x, j - 1);
      var s0, s1 := BinomSum(n, x, j - 1), BinomSum(n, x, j);
      assert Binom(n + 1, j) == b1 + b2;
      assert Pow(x, j) == x * q;
      PascalAlgebra(s0, s1, b1, b2, x, q);
    }
  }

  lemma PascalAlgebra(s0: int, s1: int, b1: int, b2: int, x: int, q: int)
    requires s1 == s0 + b1 * q
    ensures (s1 + x * s0) + (b1 + b2) * (x * q) == (s1 + b2 * (x * q)) + x * s1
  {
  }

  /** The binomial theorem for (x + 1)^n. */
  lemma {:induction false} BinomialTheorem(n: nat, x: nat)
    ensures Pow(x + 1, n) == BinomSum(n, x, n + 1)
    decreases n
  {
    if n > 0 {
      BinomialTheorem(n - 1, x);
      BinomSumStep(n - 1, x, n);
      BinomBeyond(n - 1, n);
      var t := BinomSum(n - 1, x, n);
      var c := BinomSum(n - 1, x, n + 1);
      assert c == t + Binom(n - 1, n) * Pow(x, n);
      assert Pow(x + 1, n) == (x + 1) * Pow(x + 1, n - 1);
      BinomialAlgebra(Pow(x + 1, n), BinomSum(n, x, n + 1), c, t, x, Pow(x, n));
    }
  }

  lemma BinomialAlgebra(a: int, b: int, c: int, t: int, x: int, w: int)
    requires a == (x + 1) * t && b == c + x * t && c == t + 0 * w
    ensures a == b
  {
  }

  /** Modulo a prime p, the partial sums of (x + 1)^p stop at 1 until the last term. */
  lemma {:induction false} BinomSumModPrime(p: nat, x: nat, j: nat)
    requires IsPrime(p) && 1 <= j <= p
    ensures BinomSum(p, x, j) % p == 1
    decreases j
  {
    DivModUnique(1, p, 0, 1);
    if j == 1 {
      assert BinomSum(p, x, 1) == 0 + Binom(p, 0) * Pow(x, 0);
    } else {
      BinomSumModPrime(p, x, j - 1);
      var prev, term := BinomSum(p, x, j - 1), Binom(p, j - 1) * Pow(x, j - 1);
      assert BinomSum(p, x, j) == prev + term;
      PrimeDividesBinom(p, j - 1);
      DividesProduct(p, Binom(p, j - 1), Pow(x, j - 1));
      assert term % p == 0;
      AddMod(prev, term, p);
    }
  }

  /** (x + 1)^p is congruent to x^p + 1 modulo a prime p. */
  lemma FreshmansDream(p: nat, x: nat)
    requires IsPrime(p)
    ensures Pow(x + 1, p) % p == (Pow(x, p) + 1) % p
  {
    BinomialTheorem(p, x);
    BinomSumModPrime(p, x, p);
    BinomPP(p);
    var sum, top := BinomSum(p, x, p), Pow(x, p);
    assert BinomSum(p, x, p + 1) == sum + Binom(p, p) * top;
    assert Pow(x + 1, p) == sum + top;
    AddMod(sum, top, p);
    AddMod(top, 1, p);
    DivModUnique(1, p, 0, 1);
  }

  lemma {:induction false} BinomPP(n: nat)
    ensures Binom(n, n) == 1
    decreases n
  {
    if n > 0 {
      BinomPP(n - 1);
      BinomBeyond(n - 1, n);
    }
  }

  /** Fermat's little theorem in the form a^p == a (mod p). */
  lemma {:induction false} FermatPow(p: nat, a: nat)
    requires IsPrime(p)
    ensures Pow(a, p) % p == a % p
    decreases a
  {
    if a == 0 {
      assert Pow(0, p) == 0 * Pow(0, p - 1);
    } else {
      FermatPow(p, a - 1);
      FreshmansDream(p, a - 1);
      AddMod(Pow(a - 1, p), 1, p);
      AddMod(a - 1, 1, p);
    }
  }

  /** Fermat's little theorem: a^(p-1) == 1 (mod p) when p does not divide a. */
  lemma FermatLittle(p: nat, a: nat)
    requires IsPrime(p) && a % p != 0
    ensures Pow(a, p - 1) % p == 1
  {
    FermatPow(p, a);
    var t := Pow(a, p - 1);
    assert Pow(a, p) == a * t;
    CancelUnit(p, a, t);
  }

  /** A factor a not divisible by the prime p cancels: a * t == a (mod p)
      forces t == 1 (mod p). */
  lemma CancelUnit(p: nat, a: nat, t: nat)
    requires IsPrime(p) && a % p != 0 && (a * t) % p == a % p
    ensures t % p == 1
  {
    var q1, q2 := (a * t) / p, a / p;
    assert a * t == q1 * p + a % p;
    assert a == q2 * p + a % p;
    var u := t - 1;
    assert a * u == (q1 - q2) * p by {
      assert a * u == a * t - a;
    }
    assert Divides(p, a * u) by {
      DivModUnique(a * u, p, q1 - q2, 0);
    }
    EuclidLemma(p, a, u);
    var j := u / p;
    assert u == j * p + u % p;
    DivModUnique(t, p, j, 1);
  }

  /** Modulo a prime, the only square roots of 1 are 1 and p - 1. */
  lemma SquareRootOfOne(p: nat, x: nat)
    requires IsPrime(p) && x < p && (x * x) % p == 1
    ensures x == 1 || x == p - 1
  {
    if x == 0 {
      DivModUnique(0, p, 0, 0);
    } else {
      assert x * x - 1 == (x - 1) * (x + 1);
      assert Divides(p, (x - 1) * (x + 1)) by {
        var q := (x * x) / p;
        assert x * x == q * p + 1;
        DivModUnique((x - 1) * (x + 1), p, q, 0);
      }
      EuclidLemma(p, x - 1, x + 1);
      if Divides(p, x - 1) {
        if x - 1 > 0 { DivisorAtMost(p, x - 1); }
      } else {
        DivisorAtMost(p, x + 1);
        if x + 1 < 2 * p {
          DivModUnique(x + 1, p, 1, x + 1 - p);
        }
      }
    }
  }
}
