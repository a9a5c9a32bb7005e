/** Elementary number theory behind RSA and the Miller-Rabin test: Bezout's
    identity, Euclid's lemma, binomial coefficients, Fermat's little theorem
    and the Chinese-remainder step for two distinct primes. */
module NumberTheory {
  import opened Arith

  /** n is a prime number. */
  predicate IsPrimeNumber(n: int) {
    n >= 2 && forall d :: 2 <= d < n ==> n % d != 0
  }

  // ---------------------------------------------------------------------
  // Divisibility facts
  // ---------------------------------------------------------------------

  /** A positive divisor of a positive number is at most that number. */
  lemma DivisorBound(d: int, x: int)
    requires Divides(d, x) && x > 0
    ensures d <= x
  {
    var k := x / d;
    assert x == d * k;
    if k <= 0 {
      MulMonotone(0, -k, d);
      assert false;
    } else {
      MulMonotone(1, k, d);
    }
  }

  /** The only multiple of m strictly between -m and m is 0. */
  lemma SmallMultiple(m: int, y: int)
    requires Divides(m, y) && -m < y < m
    ensures y == 0
  {
    if 0 < y {
      ModUnique(y, m, 0, y);
    } else if y < 0 {
      ModUnique(y, m, -1, y + m);
    }
  }

  lemma CongruentTransitive(x: int, y: int, z: int, m: int)
    requires m > 0 && Congruent(x, y, m) && Congruent(y, z, m)
    ensures Congruent(x, z, m)
  {
    DividesLinear(m, x - y, y - z, 1);
    assert (x - y) + 1 * (y - z) == x - z;
  }

  /** Congruent bases have congruent powers. */
  lemma {:induction false} PowCongruent(x: int, y: int, k: nat, m: int)
    requires m > 0 && Congruent(x, y, m)
    ensures Congruent(Pow(x, k), Pow(y, k), m)
    decreases k
  {
    if k == 0 {
      MultipleMod(m, 0);
    } else {
      PowCongruent(x, y, k - 1, m);
      CongruentScale(Pow(x, k - 1), Pow(y, k - 1), x, m);
      CongruentScale(x, y, Pow(y, k - 1), m);
      CongruentTransitive(Pow(x, k - 1) * x, Pow(y, k - 1) * x, y * Pow(y, k - 1), m);
    }
  }

  lemma {:induction false} PowOfOne(k: nat)
    ensures Pow(1, k) == 1
    decreases k
  {
    if k > 0 {
      PowOfOne(k - 1);
    }
  }

  // ---------------------------------------------------------------------
  // Bezout's identity and Euclid's lemma
  // ---------------------------------------------------------------------

  /** The coefficients of the extended Euclidean algorithm, following the
      recursion of Gcd. */
  function ExtendedGcd(a: nat, b: nat): (int, int)
    decreases b
  {
    if b == 0 then (1, 0)
    else
      var (x, y) := ExtendedGcd(b, a % b);
      (y, x - y * (a / b))
  }

  /** Bezout's identity: the gcd is an integer combination of its arguments. */
  lemma {:induction false} BezoutIdentity(a: nat, b: nat)
    ensures ExtendedGcd(a, b).0 * a + ExtendedGcd(a, b).1 * b == Gcd(a, b)
    decreases b
  {
    if b > 0 {
      var (x, y) := ExtendedGcd(b, a % b);
      BezoutIdentity(b, a % b);
      BezoutStep(a, b, a / b, a % b, x, y);
    }
  }

  /** The arithmetic of one step of BezoutIdentity, on plain numbers. */
  lemma BezoutStep(a: int, b: int, q: int, r: int, x: int, y: int)
    requires a == q * b + r
    ensures y * a + (x - y * q) * b == x * b + y * r
  {
    calc {
      y * a + (x - y * q) * b;
      y * (q * b) + y * r + x * b - (y * q) * b;
      x * b + y * r;
    }
  }

  /** A prime not dividing a is coprime to it. */
  lemma PrimeCoprime(p: int, r: int)
    requires IsPrimeNumber(p) && 0 < r < p
    ensures Gcd(r, p) == 1
  {
    var g := Gcd(r, p);
    GcdIsGreatestCommonDivisor(r, p);
    DivisorBound(g, r);
    if g != 1 {
      assert false;
    }
  }

  /** Euclid's lemma: a prime that divides a product divides a factor. */
  lemma EuclidLemma(p: int, a: int, b: int)
    requires IsPrimeNumber(p) && Divides(p, a * b)
    ensures Divides(p, a) || Divides(p, b)
  {
    if !Divides(p, a) {
      var r := a % p;
      PrimeCoprime(p, r);
      BezoutIdentity(r, p);
      ResidueProduct(p, a, b);
      CoprimeCancel(p, r, b, ExtendedGcd(r, p).0, ExtendedGcd(r, p).1);
    }
  }

  /** Replacing a factor by its residue keeps divisibility of the product. */
  lemma ResidueProduct(p: int, a: int, b: int)
    requires p > 0 && Divides(p, a * b)
    ensures Divides(p, (a % p) * b)
  {
    var k, r := a / p, a % p;
    assert a == p * k + r;
    ResidueProductArith(a, b, p, k, r);
    MultipleMod(p, 1);
    DividesLinear(p, a * b, p, -(k * b));
  }

  lemma ResidueProductArith(a: int, b: int, p: int, k: int, r: int)
    requires a == p * k + r
    ensures r * b == a * b + -(k * b) * p
  {
    calc {
      a * b + -(k * b) * p;
      (p * k + r) * b - (k * b) * p;
      r * b;
    }
  }

  /** If x r + y p == 1 and p divides r b, then p divides b. */
  lemma CoprimeCancel(p: int, r: int, b: int, x: int, y: int)
    requires p > 0 && x * r + y * p == 1 && Divides(p, r * b)
    ensures Divides(p, b)
  {
    MultipleMod(p, 1);
    DividesProduct(p, r * b, x);
    DividesLinear(p, r * b * x, p, y * b);
    assert b == r * b * x + y * b * p by {
      assert b == (x * r + y * p) * b;
    }
  }

  /** Two distinct primes that both divide x: so does their product. */
  lemma ProductOfPrimesDivides(p: int, q: int, x: int)
    requires IsPrimeNumber(p) && IsPrimeNumber(q) && p != q
    requires Divides(p, x) && Divides(q, x)
    ensures Divides(p * q, x)
  {
    var k := x / p;
    assert x == p * k;
    EuclidLemma(q, p, k);
    if Divides(q, p) {
      DivisorBound(q, p);
      assert false;
    }
    var j := k / q;
    assert k == q * j;
    assert x == (p * q) * j;
    MultipleMod(p * q, j);
  }

  // ---------------------------------------------------------------------
  // Binomial coefficients
  // ---------------------------------------------------------------------

  /** n choose k, by Pascal's rule. */
  function Binom(n: nat, k: nat): nat
    decreases n
  {
    if k == 0 then 1
    else if n == 0 then 0
    else Binom(n - 1, k - 1) + Binom(n - 1, k)
  }

  lemma {:induction false} BinomAbove(n: nat, k: nat)
    requires k > n
    ensures Binom(n, k) == 0
    decreases n
  {
    if n > 0 {
      BinomAbove(n - 1, k - 1);
      BinomAbove(n - 1, k);
    }
  }

  lemma {:induction false} BinomDiagonal(n: nat)
    ensures Binom(n, n) == 1
    decreases n
  {
    if n > 0 {
      BinomDiagonal(n - 1);
      BinomAbove(n - 1, n);
    }
  }

  /** The absorption identity k * C(n, k) == n * C(n - 1, k - 1). */
  lemma {:induction false} Absorption(n: nat, k: nat)
    requires n >= 1 && k >= 1
    ensures k * Binom(n, k) == n * Binom(n - 1, k - 1)
    decreases n
  {
    if n == 1 {
      if k > 1 {
        BinomAbove(0, k - 1);
        BinomAbove(0, k);
      }
    } else if k == 1 {
      Absorption(n - 1, 1);
    } else {
      Absorption(n - 1, k - 1);
      Absorption(n - 1, k);
      AbsorptionStep(n, k, Binom(n - 2, k - 2), Binom(n - 2, k - 1), Binom(n - 1, k - 1), Binom(n - 1, k));
    }
  }

  /** The arithmetic of one step of Absorption, on plain numbers:
      c == a + b is C(n-1, k-1), and the two smaller identities hold. */
  lemma AbsorptionStep(n: int, k: int, a: int, b: int, c: int, d: int)
    requires c == a + b
    requires (k - 1) * c == (n - 1) * a && k * d == (n - 1) * b
    ensures k * (c + d) == n * c
  {
    calc {
      k * (c + d);
      (k - 1) * c + c + k * d;
      (n - 1) * a + c + (n - 1) * b;
      (n - 1) * c + c;
    }
  }

  /** A prime divides every inner binomial coefficient of its row. */
  lemma PrimeDividesBinom(p: int, k: nat)
    requires IsPrimeNumber(p) && 0 < k < p
    ensures Divides(p, Binom(p, k))
  {
    Absorption(p, k);
    MultipleMod(p, Binom(p - 1, k - 1));
    EuclidLemma(p, k, Binom(p, k));
    ModUnique(k, p, 0, k);
  }

  /** The sum of C(n, k) * x^k for k in [0, j]. */
  function BinomSum(n: nat, x: int, j: nat): int
    decreases j
  {
    if j == 0 then 1 else BinomSum(n, x, j - 1) + Binom(n, j) * Pow(x, j)
  }

  /** Pascal's rule, summed. */
  lemma {:induction false} SumPascal(n: nat, x: int, j: nat)
    requires j >= 1
    ensures BinomSum(n + 1, x, j) == BinomSum(n, x, j) + x * BinomSum(n, x, j - 1)
    decreases j
  {
    if j == 1 {
      assert Pow(x, 1) == x;
    } else {
      SumPascal(n, x, j - 1);
      assert Pow(x, j) == x * Pow(x, j - 1);
      SumPascalStep(x, BinomSum(n, x, j - 1), BinomSum(n, x, j - 2), Binom(n, j - 1), Binom(n, j),
        Pow(x, j - 1), BinomSum(n + 1, x, j - 1));
    }
  }

  /** The arithmetic of one step of SumPascal, on plain numbers. */
  lemma SumPascalStep(x: int, s1: int, s2: int, c1: int, c2: int, w: int, t: int)
    requires t == s1 + x * s2
    ensures t + (c1 + c2) * (x * w) == (s1 + c2 * (x * w)) + x * (s2 + c1 * w)
  {
  }

  /** The binomial theorem for (x + 1)^n. */
  lemma {:induction false} BinomialTheorem(x: int, n: nat)
    ensures Pow(x + 1, n) == BinomSum(n, x, n)
    decreases n
  {
    if n > 0 {
      BinomialTheorem(x, n - 1);
      SumPascal(n - 1, x, n);
      BinomAbove(n - 1, n);
      calc {
        Pow(x + 1, n);
        (x + 1) * BinomSum(n - 1, x, n - 1);
        BinomSum(n - 1, x, n - 1) + x * BinomSum(n - 1, x, n - 1);
        BinomSum(n - 1, x, n) + x * BinomSum(n - 1, x, n - 1);
      }
    }
  }

  lemma {:induction false} InnerTermsVanish(p: int, x: int, j: nat)
    requires IsPrimeNumber(p) && j < p
    ensures Congruent(BinomSum(p, x, j), 1, p)
    decreases j
  {
    if j == 0 {
      MultipleMod(p, 0);
    } else {
      var term := Binom(p, j) * Pow(x, j);
      var rest := BinomSum(p, x, j - 1) - 1;
      assert Divides(p, rest) by {
        InnerTermsVanish(p, x, j - 1);
      }
      assert Divides(p, term) by {
        PrimeDividesBinom(p, j);
        DividesProduct(p, Binom(p, j), Pow(x, j));
      }
      DividesLinear(p, rest, term, 1);
      assert BinomSum(p, x, j) - 1 == rest + 1 * term;
    }
  }

  /** The freshman's dream modulo a prime: (x + 1)^p and x^p + 1 agree. */
  lemma FreshmansDream(p: int, x: int)
    requires IsPrimeNumber(p)
    ensures Congruent(Pow(x + 1, p), Pow(x, p) + 1, p)
  {
    var inner := BinomSum(p, x, p - 1);
    assert Pow(x + 1, p) == inner + Pow(x, p) by {
      BinomialTheorem(x, p);
      BinomDiagonal(p);
    }
    assert (inner - 1) % p == 0 by {
      InnerTermsVanish(p, x, p - 1);
    }
    ShiftedCongruence(Pow(x + 1, p), Pow(x, p), inner, p);
  }

  /** The arithmetic that closes FreshmansDream, on plain numbers. */
  lemma ShiftedCongruence(a: int, b: int, inner: int, p: int)
    requires p > 0 && a == inner + b && (inner - 1) % p == 0
    ensures Congruent(a, b + 1, p)
  {
    assert a - (b + 1) == inner - 1;
  }

  // ---------------------------------------------------------------------
  // Fermat's little theorem
  // ---------------------------------------------------------------------

  /** a^p and a leave the same remainder modulo a prime p. */
  lemma {:induction false} FermatLittle(p: int, a: nat)
    requires IsPrimeNumber(p)
    ensures Congruent(Pow(a, p), a, p)
    decreases a
  {
    if a == 0 {
      assert Pow(0, p) == 0 * Pow(0, p - 1) == 0;
      MultipleMod(p, 0);
    } else {
      FermatLittle(p, a - 1);
      FreshmansDream(p, a - 1);
      CongruentLinear(Pow(a - 1, p), a - 1, 1, 1, 1, p);
      CongruentTransitive(Pow(a, p), Pow(a - 1, p) + 1, a, p);
    }
  }

  /** For a not divisible by the prime p, a^(p - 1) leaves remainder 1. */
  lemma FermatUnit(p: int, a: nat)
    requires IsPrimeNumber(p) && a % p != 0
    ensures Congruent(Pow(a, p - 1), 1, p)
  {
    FermatLittle(p, a);
    assert Pow(a, p) == a * Pow(a, p - 1);
    assert a * Pow(a, p - 1) - a == a * (Pow(a, p - 1) - 1);
    EuclidLemma(p, a, Pow(a, p - 1) - 1);
  }

  /** An exponent of the form 1 + k (p - 1) fixes every residue modulo p. */
  lemma ExponentFixesResidues(p: int, m: nat, k: nat)
    requires IsPrimeNumber(p)
    ensures Congruent(Pow(m, 1 + k * (p - 1)), m, p)
  {
    var j := MulNat(k, p - 1);
    var x := Pow(m, j);
    PowAdd(m, 1, j);
    assert Pow(m, 1) == m;
    assert Pow(m, 1 + k * (p - 1)) == m * x;
    if m % p == 0 {
      MultipleOfZeroResidue(p, m, x);
    } else {
      UnitPowerOfFermat(p, m, k);
      CongruentScale(x, 1, m, p);
      assert x * m == m * x && 1 * m == m;
    }
  }

  /** m x and m leave the same remainder when p divides m. */
  lemma MultipleOfZeroResidue(p: int, m: int, x: int)
    requires p > 0 && m % p == 0
    ensures Congruent(m * x, m, p)
  {
    DividesProduct(p, m, x);
    DividesLinear(p, m * x, m, -1);
  }

  /** For m not divisible by the prime p, m^(k (p - 1)) leaves remainder 1. */
  lemma UnitPowerOfFermat(p: int, m: nat, k: nat)
    requires IsPrimeNumber(p) && m % p != 0
    ensures Congruent(Pow(m, k * (p - 1)), 1, p)
  {
    FermatUnit(p, m);
    PowMul(m, p - 1, k);
    assert (p - 1) * k == k * (p - 1);
    PowCongruent(Pow(m, p - 1), 1, k, p);
    PowOfOne(k);
  }

  // ---------------------------------------------------------------------
  // RSA
  // ---------------------------------------------------------------------

  /** Textbook RSA is correct: for distinct primes p and q and exponents
      whose product leaves remainder 1 modulo (p - 1)(q - 1), decrypting the
      encryption of any m in [0, pq) gives m back. */
  lemma RsaRoundTrip(p: int, q: int, e: nat, d: nat, m: nat)
    requires IsPrimeNumber(p) && IsPrimeNumber(q) && p != q
    requires (e * d) % ((p - 1) * (q - 1)) == 1
    requires m < p * q
    ensures Pow(Pow(m, e) % (p * q), d) % (p * q) == m
  {
    var n := p * q;
    ExponentFixesProducts(p, q, e * d, m);
    ReduceBetweenPowers(m, e, d, n);
    CongruentTransitive(Pow(Pow(m, e) % n, d), Pow(m, e * d), m, n);
    CongruentMod(Pow(Pow(m, e) % n, d), m, n);
    ModUnique(m, n, 0, m);
  }

  /** An exponent leaving remainder 1 modulo (p - 1)(q - 1) fixes every
      residue modulo pq. */
  lemma ExponentFixesProducts(p: int, q: int, x: nat, m: nat)
    requires IsPrimeNumber(p) && IsPrimeNumber(q) && p != q
    requires x % ((p - 1) * (q - 1)) == 1
    ensures Congruent(Pow(m, x), m, p * q)
  {
    var u, v := p - 1, q - 1;
    MulMonotone(1, u, v);
    var k: nat := x / (u * v);
    ExponentSplit(x, u, v, k);
    MulMonotone(0, k, v);
    MulMonotone(0, k, u);
    var kv: nat, ku: nat := k * v, k * u;
    ExponentFixesResidues(p, m, kv);
    ExponentFixesResidues(q, m, ku);
    ProductOfPrimesDivides(p, q, Pow(m, x) - m);
  }

  /** x leaving remainder 1 modulo u v is 1 + (k v) u and 1 + (k u) v. */
  lemma ExponentSplit(x: int, u: int, v: int, k: int)
    requires u * v > 0 && x % (u * v) == 1 && k == x / (u * v)
    ensures x == 1 + (k * v) * u && x == 1 + (k * u) * v
  {
    assert x == (u * v) * k + 1;
  }

  /** Reducing modulo n between the two exponentiations changes nothing
      modulo n. */
  lemma ReduceBetweenPowers(m: int, e: nat, d: nat, n: int)
    requires n > 0
    ensures Congruent(Pow(Pow(m, e) % n, d), Pow(m, e * d), n)
  {
    var c := Pow(m, e);
    assert Congruent(Pow(c % n, d), Pow(c, d), n) by {
      ResidueCongruent(c, n);
      PowCongruent(c % n, c, d, n);
    }
    assert Pow(c, d) == Pow(m, e * d) by {
      PowMul(m, e, d);
    }
  }

  // ---------------------------------------------------------------------
  // Square roots of one
  // ---------------------------------------------------------------------

  /** Modulo a prime, 1 has only the square roots 1 and -1. */
  lemma SquareRootsOfOne(p: int, x: int)
    requires IsPrimeNumber(p) && 0 <= x < p && (x * x) % p == 1
    ensures x == 1 || x == p - 1
  {
    assert Congruent(x * x, 1, p) by {
      ModUnique(1, p, 0, 1);
      CongruentMod(x * x, 1, p);
    }
    assert Divides(p, (x - 1) * (x + 1)) by {
      DifferenceOfSquares(x);
    }
    EuclidLemma(p, x - 1, x + 1);
    if Divides(p, x - 1) {
      SmallMultiple(p, x - 1);
    } else if x + 1 < p {
      SmallMultiple(p, x + 1);
    }
  }

  lemma DifferenceOfSquares(x: int)
    ensures x * x - 1 == (x - 1) * (x + 1)
  {
  }
}
