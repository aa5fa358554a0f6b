# Primitive roots and ElGamal over a prime field, in Dafny

`MaheshGhogare.py` is a small teaching script. It has three parts:

- `check_prime(n)` first does trial division by the primes up to 19. It then runs a Miller–Rabin test with twelve fixed witnesses.
- `find_primitive_roots(p)` factors `phi = p - 1` and searches for the first `g` in `2 .. p-1` with `pow(g, phi // f, p) != 1` for every prime factor `f`. It returns the sorted list of `pow(g, k, p)` for the `k < phi` coprime to `phi`.
- A script uses these on `p = 467`, `g = 2`. It computes Alice's ElGamal public key, encrypts Bob's message and decrypts it again.

This project models that arithmetic core and proves what it is meant to do.

| file | module | contents |
|---|---|---|
| `number_theory.dfy` | `NumberTheory` | `Pow`; Python's three-argument `pow` as square-and-multiply (`ModPow`); `math.gcd`; divisibility and primality. Also the classical facts: Bezout, Euclid's lemma, prime divisors and trial division. |
| `fermat.dfy` | `Fermat` | The binomial theorem modulo a prime, leading to Fermat's little theorem. Also the fact that 1 has only the square roots 1 and p − 1 modulo a prime. |
| `sorting.dfy` | `Sorting` | Python's `sorted` on a list of integers, as a functional insertion sort. |
| `miller_rabin.dfy` | `MillerRabin` | `check_prime` as an imperative method (`CheckPrime`). It is proved to compute the loop-free predicate `MillerRabinAccepts`, and that predicate is proved to accept every prime. |
| `factorization.dfy` | `Factorization` | The factorisation loops of `find_primitive_roots` (`FactorTotient`). The result is proved to be the prime factorisation, stated through the p-adic valuation. |
| `primitive_roots.dfy` | `PrimitiveRoots` | `find_primitive_roots` (`FindPrimitiveRoots`, `CollectRoots`) and the theory of multiplicative order it rests on. |
| `elgamal.dfy` | `ElGamal` | The key, encryption and decryption formulas, the round-trip theorem, and the script with its concrete numbers (`RunExample`). |

The three routines keep the script's own form:
- `check_prime` and the factorisation are loops over local variables, so they are methods with loop invariants.
- The comprehension and `sorted` are expressions, so they are functions.
- The ElGamal formulas are one-line expressions, so they are functions.

The module-level parameters `p, g, a, m, k` become parameters, or locals of `RunExample`.

Integers are unbounded, as in Python.

## Model

| member | source | states |
|---|---|---|
| NumberTheory.ModPow | MaheshGhogare.py:21 | `pow(b, e, m)` for a modulus m ≥ 1 is a residue below m |
| NumberTheory.ModPowIsPow | MaheshGhogare.py:21 | square-and-multiply computes b^e mod m, for every b, e and m ≥ 1 |
| NumberTheory.Gcd | MaheshGhogare.py:54 | `math.gcd(a, b)` by Euclid's algorithm; the result is 0 exactly when both arguments are 0 (GcdDivides and GcdGreatest below state that it is the greatest common divisor) |
| NumberTheory.GcdDivides | MaheshGhogare.py:54 | `math.gcd(a, b)` of arguments not both 0 is positive and divides both |
| NumberTheory.Bezout | MaheshGhogare.py:54 | the `math.gcd(a, b)` of line 54 is an integer combination of its arguments: the returned x, y satisfy a·x + b·y == Gcd(a, b) |
| NumberTheory.GcdGreatest | MaheshGhogare.py:54 | every common divisor of a and b divides `math.gcd(a, b)` |
| Fermat.FermatLittle | MaheshGhogare.py:82 | a^(p−1) ≡ 1 (mod p) for a prime p not dividing a, which is what makes `pow(s, p-2, p)` an inverse and the Miller–Rabin test sound |
| Fermat.SquareRootOfOne | MaheshGhogare.py:24-27 | modulo a prime, x² ≡ 1 only for x = 1 and x = p − 1, which is why the squaring loop looks for n − 1 |
| MillerRabin.OddPart | MaheshGhogare.py:13-17 | splits m ≥ 1 as d · 2^s with d odd |
| MillerRabin.SplitPowerOfTwo | MaheshGhogare.py:13-17 | the halving loop returns an odd d with d · 2^s = n − 1, and s ≥ 1 when n − 1 is even |
| MillerRabin.CheckPrime | MaheshGhogare.py:4-30 | `check_prime(n)` returns exactly `MillerRabinAccepts(n)`: false below 2, the first small prime dividing n decides whether n equals it, and otherwise every witness below n must be a strong probable-prime witness |
| MillerRabin.WitnessPasses | MaheshGhogare.py:21-29 | the test of one witness a succeeds iff a^d ≡ 1 or a^(d·2^r) ≡ n − 1 (mod n) for some r < s |
| MillerRabin.TrialDivisionDecides | MaheshGhogare.py:8-12 | nothing below 2 is accepted; if a small prime q divides n, then n is accepted iff n = q |
| MillerRabin.NoSmallPrimeDivides | MaheshGhogare.py:10-18 | with no small prime divisor, s ≥ 1, and the verdict is that of the witness loop |
| MillerRabin.SquaringChain | MaheshGhogare.py:24-27 | modulo a prime, a squaring chain that ends at 1 without starting at 1 passes through n − 1 |
| MillerRabin.PrimePassesWitness | MaheshGhogare.py:21-29 | every witness 1 ≤ a < n passes for a prime n |
| MillerRabin.PrimesAccepted | MaheshGhogare.py:4-30 | `check_prime` accepts every prime |
| MillerRabin.TenRejected | MaheshGhogare.py:10-12 | 10 is rejected by trial division |
| MillerRabin.Prime467 | MaheshGhogare.py:58 | 467 is prime and accepted |
| Factorization.Count | MaheshGhogare.py:39-42 | a read of the `defaultdict(int)`: a missing key reads as 0; it has no contract of its own, and Increment and FactorTotient state their results through it |
| Factorization.Increment | MaheshGhogare.py:42 | `factors[f] += 1` on a `defaultdict(int)` adds key f and raises only f's count by one |
| Factorization.FactorTotient | MaheshGhogare.py:39-51 | the loops return a dictionary whose keys are exactly the prime divisors of phi, each mapped to its exponent in phi |
| Factorization.DivideOut | MaheshGhogare.py:41-43 | dividing temp by a prime factor moves one factor from temp to the dictionary, keeping every prime's exponent in phi split between the two |
| Factorization.DivideByLeastDivisor | MaheshGhogare.py:46-48 | in the inner loop i is the least divisor of temp above 1, hence prime; dividing it out keeps the invariant and shrinks temp |
| Factorization.ValuationOfQuotient | MaheshGhogare.py:43 | dividing n by a prime f lowers the exponent of f by one and leaves every other prime's exponent unchanged |
| Factorization.OddStep | MaheshGhogare.py:49 | stepping i by 2 skips no divisor: the even i + 1 cannot divide an odd temp |
| Factorization.FinishFactorisation | MaheshGhogare.py:50-51 | after the loops temp is 1 or a prime above 2, and adding it completes the factorisation |
| Factorization.PrimeDivisors466 | MaheshGhogare.py:38-51 | for p = 467 the dictionary keys are {2, 233} |
| PrimitiveRoots.FindPrimitiveRoots | MaheshGhogare.py:32-55 | rejected input gives []; the result is sorted, made of residues below p, and as long as φ(p − 1) when not empty; for a prime p it is strictly ascending, each element passes the test of line 53, and (p ≥ 3) r is in it iff r is a primitive root modulo p |
| PrimitiveRoots.CollectRoots | MaheshGhogare.py:54 | the sorted comprehension built from the first g passing the test has the properties above |
| PrimitiveRoots.CoprimePowers | MaheshGhogare.py:54 | every value of the comprehension is a residue below p |
| PrimitiveRoots.CoprimePowersMembers | MaheshGhogare.py:54 | x is in the comprehension iff x = g^k mod p for some 1 ≤ k < bound with gcd(k, phi) = 1 |
| PrimitiveRoots.CoprimePowersCount | MaheshGhogare.py:54 | the comprehension has one entry per exponent coprime to phi |
| PrimitiveRoots.CoprimePowersDistinct | MaheshGhogare.py:54 | for a primitive root g the comprehension has no repeated value |
| PrimitiveRoots.PassesRootTest | MaheshGhogare.py:53 | `all(pow(g, phi // f, p) != 1 for f in factors)` with `pow` as ModPow; no contract of its own, RootTestMeaning and RootCriterion state what it decides |
| PrimitiveRoots.RootTestMeaning | MaheshGhogare.py:53 | g passes the test iff g^(phi / f) mod p ≠ 1 for every f in the key set, with each `pow(g, phi // f, p)` read as the true power |
| PrimitiveRoots.TestPowerAgrees | MaheshGhogare.py:53 | one `pow(g, phi // f, p)` of the test equals g^(phi / f) mod p |
| PrimitiveRoots.RootCriterion | MaheshGhogare.py:53 | modulo a prime, g passes `all(pow(g, phi // f, p) != 1 for f in factors)` iff g has multiplicative order p − 1 (both directions) |
| PrimitiveRoots.LeastExponentDivides | MaheshGhogare.py:53 | the order of g modulo a prime p divides p − 1 |
| PrimitiveRoots.ShortCycleFailsTest | MaheshGhogare.py:53 | if g^e ≡ 1 for some e < p − 1, some prime factor f of p − 1 has g^((p−1)/f) ≡ 1 |
| PrimitiveRoots.CoprimePowerHasFullOrder | MaheshGhogare.py:54 | g^k for a primitive root g and k coprime to p − 1 is again a primitive root |
| PrimitiveRoots.FullOrderIsCoprimePower | MaheshGhogare.py:54 | every primitive root appears in the comprehension built from a primitive root g, i.e. is g^k mod p for some k coprime to p − 1 |
| PrimitiveRoots.RootsOfGenerator | MaheshGhogare.py:54 | the answer's values are residues below n, and a non-empty answer has φ(n − 1) entries |
| PrimitiveRoots.RootsOfGeneratorModPrime | MaheshGhogare.py:52-54 | modulo a prime, the answer is strictly ascending and holds exactly the primitive roots, each passing the test |
| PrimitiveRoots.NoRootFound | MaheshGhogare.py:52-55 | when no g passes, a prime n ≥ 3 has no primitive root, so [] is right |
| PrimitiveRoots.SmallModuli | MaheshGhogare.py:36-55 | the answers for 2, 3 and 10 are [], [2] and [] |
| PrimitiveRoots.TwoIsPrimitiveRootOf467 | MaheshGhogare.py:59 | 2 has order 466 modulo 467 |
| Sorting.Sort | MaheshGhogare.py:54 | `sorted` returns an ascending permutation of its input |
| Sorting.SortedDistinctIsStrict | MaheshGhogare.py:54 | an ascending permutation of a list without repeats is strictly ascending |
| ElGamal.PublicKey | MaheshGhogare.py:71 | A = g^a mod p, a residue below p |
| ElGamal.Encrypt | MaheshGhogare.py:74-76 | c1 = g^k mod p and c2 = m · A^k mod p, both below p |
| ElGamal.Decrypt | MaheshGhogare.py:81-82 | the result is c2 · ((c1^a mod p)^(p−2)) mod p, a residue below p |
| ElGamal.SharedSecretAgrees | MaheshGhogare.py:75 | Bob's `pow(A, k, p)` and Alice's `pow(c1, a, p)` are both g^(a·k) mod p |
| ElGamal.FermatInverse | MaheshGhogare.py:82 | s · s^(p−2) ≡ 1 (mod p) for a prime p not dividing s |
| ElGamal.DecryptInvertsEncrypt | MaheshGhogare.py:71-82 | for a prime p not dividing g, decrypting the encryption of m returns m mod p, for every a and k |
| ElGamal.DivisibleGeneratorLosesMessage | MaheshGhogare.py:71-82 | when p divides g (and a, k ≥ 1) decryption returns 0 whatever m was, so the round trip needs p ∤ g |
| ElGamal.ExamplePublicKey | MaheshGhogare.py:71 | 2^153 mod 467 = 224 |
| ElGamal.ExampleEphemeralKey | MaheshGhogare.py:74 | 2^197 mod 467 = 87 |
| ElGamal.ExampleSharedSecret | MaheshGhogare.py:75 | 224^197 mod 467 = 367 |
| ElGamal.RunExample | MaheshGhogare.py:57-90 | the script's checks: 467 is prime; 2 is among its primitive roots, which are exactly the residues of order 466; A = 224; (c1, c2) = (87, 57); the decrypted message is 331; the success branch is taken |

## Left out

- Printing (MaheshGhogare.py:66-68, 72, 77-78, 83-84, 87-90) is not modelled. `RunExample` returns the printed values instead.
- The converse of Miller–Rabin is not proved: that every composite below some bound is rejected by the twelve witnesses. The claim rests on published computation rather than a proof. The model proves only that primes are accepted and what the test decides.
- PrimitiveRoots.FindPrimitiveRoots: that every prime has a primitive root is not proved. The characterisation holds whatever the answer is: r is returned iff r is a primitive root. The answer for a prime p ≥ 3 is therefore [] exactly when no primitive root exists. The model does not exclude that case in general. It is excluded for 3 and 467 by `SmallModuli` and `TwoIsPrimitiveRootOf467`.
- PrimitiveRoots.FindPrimitiveRoots: the properties 1 ≤ r, no repeats, and the root test of line 53 for every element are proved for a prime p only. An accepted composite is not excluded, because the converse of Miller–Rabin is left out (see above). For such a p only sortedness, the range 0 ≤ r < p and the length are proved.
- PrimitiveRoots.FindPrimitiveRoots: for p = 2 it returns [], as the code does (`range(2, 2)` is empty), even though 1 is a primitive root modulo 2. The root characterisation is stated for p ≥ 3 only.
- ElGamal.Decrypt: requires p ≥ 2. For p < 2, Python's `pow` with a negative exponent either computes a modular inverse or raises, and that is not modelled.
- ElGamal.DecryptInvertsEncrypt: requires p to be prime and not to divide g. `DivisibleGeneratorLosesMessage` shows why the second condition is needed. A composite p is outside the scheme's claim.
- The randomness of the private key a and the ephemeral k is not modelled. Both are parameters, and the theorems hold for all of them.
- Factorization.FactorTotient: the loop invariant is stated prime by prime, through the p-adic valuation (`Valuation`). The code's informal invariant is temp · ∏ f^e = phi; it is not written as that product.
- MillerRabin.CheckPrime: its contract is the equality with `MillerRabinAccepts`. The consequences (small inputs, small prime divisors, acceptance of primes) are separate lemmas: `TrialDivisionDecides` and `PrimesAccepted`.
- Running time is not modelled: trial factorisation, the linear search for g, and the φ(p − 1) modular powers.
- Concrete values: `pow(2, 153, 467)` is 224. The model proves the public key 224 for p = 467, g = 2, a = 153, and from it the ciphertext (87, 57).
