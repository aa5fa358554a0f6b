/** The ElGamal exchange of the script part of MaheshGhogare.py (lines 57-90):
    Alice's public key A == g^a mod p, Bob's ciphertext (g^k mod p, m * A^k mod p)
    and Alice's decryption, which divides out the shared secret with the
    Fermat inverse s^(p-2) mod p. The central fact is the round trip: for a
    prime p not dividing g, decryption returns the message modulo p. */
module ElGamal {
  import opened NumberTheory
  import opened Fermat
  import opened MillerRabin
  import opened PrimitiveRoots

  /** The pair (c1, c2) Bob sends. */
  datatype Ciphertext = Ciphertext(c1: nat, c2: nat)

  /** `A = pow(g, a, p)` (MaheshGhogare.py:71). */
  function PublicKey(g: nat, a: nat, p: nat): (A: nat)
    requires p >= 1
    ensures A < p && A == Pow(g, a) % p
  {
    ModPowIsPow(g, a, p);
    ModPow(g, a, p)
  }

  /** `c1 = pow(g, k, p)`, `shared_secret = pow(A, k, p)` and
      `c2 = (m * shared_secret) % p` (MaheshGhogare.py:74-76). */
  function Encrypt(m: nat, A: nat, g: nat, p: nat, k: nat): (c: Ciphertext)
    requires p >= 1
    ensures c.c1 < p && c.c1 == Pow(g, k) % p
    ensures c.c2 < p && c.c2 == (m * Pow(A, k)) % p
  {
    ModPowIsPow(g, k, p);
    ModPowIsPow(A, k, p);
    MulModRight(m, Pow(A, k), p);
    Ciphertext(ModPow(g, k, p), (m * ModPow(A, k, p)) % p)
  }

  /** `s = pow(c1, a, p)` and `m_decrypted = (c2 * pow(s, p - 2, p)) % p`
      (MaheshGhogare.py:81-82). */
  function Decrypt(c: Ciphertext, a: nat, p: nat): (m: nat)
    requires p >= 2
    ensures m < p
    ensures m == (c.c2 * Pow(Pow(c.c1, a) % p, p - 2)) % p
  {
    var s := ModPow(c.c1, a, p);
    ModPowIsPow(c.c1, a, p);
    ModPowIsPow(s, p - 2, p);
    MulModRight(c.c2, Pow(s, p - 2), p);
    (c.c2 * ModPow(s, p - 2, p)) % p
  }

  /** Both parties reach the same shared secret, g^(a*k) mod p: Bob raises
      Alice's public key to k, Alice raises Bob's c1 to a. */
  lemma SharedSecretAgrees(g: nat, a: nat, k: nat, p: nat)
    requires p >= 1
    ensures ModPow(PublicKey(g, a, p), k, p) == Pow(g, a * k) % p
    ensures ModPow(ModPow(g, k, p), a, p) == Pow(g, a * k) % p
  {
    RaisedPower(g, a, k, p);
    RaisedPower(g, k, a, p);
    assert k * a == a * k;
  }

  /** (g^x mod p)^y mod p == g^(x*y) mod p. */
  lemma RaisedPower(g: nat, x: nat, y: nat, p: nat)
    requires p >= 1
    ensures ModPow(ModPow(g, x, p), y, p) == Pow(g, x * y) % p
  {
    ModPowIsPow(g, x, p);
    ModPowIsPow(ModPow(g, x, p), y, p);
    PowMod(Pow(g, x), y, p);
    PowMul(g, x, y);
  }

  /** s^(p-2) mod p is the inverse of s modulo a prime p not dividing s. */
  lemma FermatInverse(s: nat, p: nat)
    requires IsPrime(p) && s % p != 0
    ensures (s * ModPow(s, p - 2, p)) % p == 1
  {
    ModPowIsPow(s, p - 2, p);
    MulModRight(s, Pow(s, p - 2), p);
    assert Pow(s, p - 1) == s * Pow(s, p - 2);
    FermatLittle(p, s);
  }

  /** The round trip: modulo a prime p that does not divide g, decrypting
      the encryption of m under Alice's public key gives back m mod p, for
      every private key a and every random k. */
  lemma DecryptInvertsEncrypt(g: nat, a: nat, k: nat, m: nat, p: nat)
    requires IsPrime(p) && g % p != 0
    ensures Decrypt(Encrypt(m, PublicKey(g, a, p), g, p, k), a, p) == m % p
  {
    var c := Encrypt(m, PublicKey(g, a, p), g, p, k);
    var s := ModPow(c.c1, a, p);
    CiphertextCarriesSecret(g, a, k, m, p);
    SecretIsUnit(g, a, k, p);
    FermatInverse(s, p);
    CancelSecret(m, s, ModPow(s, p - 2, p), p);
  }

  /** c2 is the message times the secret Alice recomputes from c1. */
  lemma CiphertextCarriesSecret(g: nat, a: nat, k: nat, m: nat, p: nat)
    requires p >= 1
    ensures var c := Encrypt(m, PublicKey(g, a, p), g, p, k);
      c.c2 == (m * ModPow(c.c1, a, p)) % p
  {
    var A := PublicKey(g, a, p);
    SharedSecretAgrees(g, a, k, p);
    assert Encrypt(m, A, g, p, k).c1 == Encrypt(0, 0, g, p, k).c1;
    ModPowIsPow(A, k, p);
    MulModRight(m, Pow(A, k), p);
  }

  /** Modulo a prime not dividing g, the shared secret is not 0. */
  lemma SecretIsUnit(g: nat, a: nat, k: nat, p: nat)
    requires IsPrime(p) && g % p != 0
    ensures ModPow(ModPow(g, k, p), a, p) % p != 0
  {
    RaisedPower(g, k, a, p);
    assert !Divides(p, g);
    PrimeNotDividesPow(p, g, k * a);
    var s := ModPow(ModPow(g, k, p), a, p);
    DivModUnique(s, p, 0, s);
  }

  /** Multiplying by the secret and then by its inverse modulo p gives back
      the message modulo p. */
  lemma CancelSecret(m: nat, s: nat, inv: nat, p: nat)
    requires p >= 1 && (s * inv) % p == 1
    ensures (((m * s) % p) * inv) % p == m % p
  {
    calc {
      (((m * s) % p) * inv) % p;
      { MulModLeft(m * s, inv, p); }
      ((m * s) * inv) % p;
      { assert (m * s) * inv == m * (s * inv); }
      (m * (s * inv)) % p;
      { MulModRight(m, s * inv, p); }
      (m * 1) % p;
    }
  }

  /** When p divides g every public key and every ciphertext is 0, so
      decryption yields 0 whatever the message: the round trip needs p not
      to divide g. */
  lemma DivisibleGeneratorLosesMessage(g: nat, a: nat, k: nat, m: nat, p: nat)
    requires p >= 2 && g % p == 0 && a >= 1 && k >= 1
    ensures Decrypt(Encrypt(m, PublicKey(g, a, p), g, p, k), a, p) == 0
  {
    var A := PublicKey(g, a, p);
    PowerOfMultiple(g, a, p);
    PowerOfMultiple(A, k, p);
    var c := Encrypt(m, A, g, p, k);
    assert c.c2 == 0;
  }

  /** A positive power of a multiple of p is 0 modulo p. */
  lemma PowerOfMultiple(g: nat, e: nat, p: nat)
    requires p >= 1 && g % p == 0 && e >= 1
    ensures Pow(g, e) % p == 0
  {
    var x := Pow(g, e - 1);
    assert Pow(g, e) == g * x;
    MulModLeft(g, x, p);
    assert (g % p) * x == 0;
  }

  /** Alice's public key in the script: 2^153 mod 467 == 224. */
  lemma ExamplePublicKey()
    ensures ModPow(2, 153, 467) == 224
  {
    ModPowOddStep(264, 1, 467, 1, 0, 264);
    ModPowEvenStep(369, 2, 467, 264, 291, 264);
    ModPowEvenStep(52, 4, 467, 264, 5, 369);
    ModPowEvenStep(156, 8, 467, 264, 52, 52);
    ModPowOddStep(156, 9, 467, 264, 88, 88);
    ModPowEvenStep(256, 18, 467, 88, 140, 156);
    ModPowOddStep(256, 19, 467, 88, 48, 112);
    ModPowEvenStep(16, 38, 467, 112, 0, 256);
    ModPowEvenStep(4, 76, 467, 112, 0, 16);
    ModPowEvenStep(2, 152, 467, 112, 0, 4);
    ModPowOddStep(2, 153, 467, 112, 0, 224);
  }

  /** The first half of Bob's ciphertext: 2^197 mod 467 == 87. */
  lemma ExampleEphemeralKey()
    ensures ModPow(2, 197, 467) == 87
  {
    ModPowOddStep(264, 1, 467, 1, 0, 264);
    ModPowEvenStep(369, 2, 467, 264, 291, 264);
    ModPowOddStep(369, 3, 467, 264, 208, 280);
    ModPowEvenStep(52, 6, 467, 280, 5, 369);
    ModPowEvenStep(156, 12, 467, 280, 52, 52);
    ModPowEvenStep(256, 24, 467, 280, 140, 156);
    ModPowEvenStep(16, 48, 467, 280, 0, 256);
    ModPowOddStep(16, 49, 467, 280, 9, 277);
    ModPowEvenStep(4, 98, 467, 277, 0, 16);
    ModPowEvenStep(2, 196, 467, 277, 0, 4);
    ModPowOddStep(2, 197, 467, 277, 1, 87);
  }

  /** The shared secret: 224^197 mod 467 == 367. */
  lemma ExampleSharedSecret()
    ensures ModPow(224, 197, 467) == 367
  {
    ModPowOddStep(360, 1, 467, 1, 0, 360);
    ModPowEvenStep(64, 2, 467, 360, 8, 360);
    ModPowOddStep(64, 3, 467, 360, 49, 157);
    ModPowEvenStep(459, 6, 467, 157, 451, 64);
    ModPowEvenStep(252, 12, 467, 157, 135, 459);
    ModPowEvenStep(149, 24, 467, 157, 47, 252);
    ModPowEvenStep(352, 48, 467, 157, 265, 149);
    ModPowOddStep(352, 49, 467, 157, 118, 158);
    ModPowEvenStep(207, 98, 467, 158, 91, 352);
    ModPowEvenStep(224, 196, 467, 158, 107, 207);
    ModPowOddStep(224, 197, 467, 158, 75, 367);
  }

  /** The script (MaheshGhogare.py:57-90) without its printing: checks that 467
      is prime and that 2 is among its primitive roots, then encrypts m == 331
      with a == 153 and k == 197 and decrypts it again. */
  method RunExample() returns (isPrime: bool, gIsRoot: bool, roots: seq<int>, A: nat, c: Ciphertext, decrypted: nat, success: bool)
    ensures isPrime && gIsRoot
    ensures forall r :: r in roots <==> HasFullOrder(r, 467)
    ensures A == 224 && c == Ciphertext(87, 57)
    ensures decrypted == 331 && success
  {
    var p, g, a, m, k := 467, 2, 153, 331, 197;
    roots := FindPrimitiveRoots(p);
    isPrime := CheckPrime(p);
    Prime467();
    TwoIsPrimitiveRootOf467();
    gIsRoot := g in roots;
    A := PublicKey(g, a, p);
    c := Encrypt(m, A, g, p, k);
    ExamplePublicKey();
    ExampleEphemeralKey();
    ExampleSharedSecret();
    assert c.c2 == (331 * 367) % 467;
    DivModUnique(331 * 367, 467, 260, 57);
    decrypted := Decrypt(c, a, p);
    DecryptInvertsEncrypt(g, a, k, m, p);
    DivModUnique(331, 467, 0, 331);
    success := m == decrypted;
  }
}
