/** Integer arithmetic of System.Numerics.BigInteger as the library uses it:
    powers, C#'s truncating division and remainder, divisibility, the greatest
    common divisor and modular exponentiation. */
module Arith {
  import opened Results

  function Abs(x: int): nat { if x < 0 then -x else x }

  /** b raised to the power e. */
  function Pow(b: int, e: nat): (r: int)
    ensures b >= 0 ==> r >= 0
    ensures b > 0 ==> r > 0
    decreases e
  {
    if e == 0 then 1 else b * Pow(b, e - 1)
  }

  lemma {:induction false} PowAdd(b: int, m: nat, k: nat)
    ensures Pow(b, m + k) == Pow(b, m) * Pow(b, k)
    decreases k
  {
    if k > 0 {
      PowAdd(b, m, k - 1);
      calc {
        Pow(b, m + k);
        b * Pow(b, m + k - 1);
        b * (Pow(b, m) * Pow(b, k - 1));
        Pow(b, m) * (b * Pow(b, k - 1));
        Pow(b, m) * Pow(b, k);
      }
    }
  }

  lemma {:induction false} PowMul(b: int, m: nat, k: nat)
    ensures Pow(b, m * k) == Pow(Pow(b, m), k)
    decreases k
  {
    if k > 0 {
      PowMul(b, m, k - 1);
      var j: nat := MulNat(m, k - 1);
      PowAdd(b, j, m);
      assert j + m == m * k;
      calc {
        Pow(b, m * k);
        Pow(b, j) * Pow(b, m);
        Pow(Pow(b, m), k - 1) * Pow(b, m);
        Pow(Pow(b, m), k);
      }
    }
  }

  /** The product of two naturals, as a natural. */
  function MulNat(x: nat, y: nat): (r: nat)
    ensures r == x * y
  {
    MulMonotone(0, x, y);
    x * y
  }

  lemma MulMonotone(x: int, y: int, k: int)
    requires 0 <= x <= y && k >= 0
    ensures x * k <= y * k
  {}

  // ---------------------------------------------------------------------
  // Division and remainder
  // ---------------------------------------------------------------------

  /** Dafny's `/` and `%` are Euclidean: x / d and x % d are the only pair
      with x == d * q + r and 0 <= r < d. */
  lemma ModUnique(x: int, d: int, q: int, r: int)
    requires d > 0 && 0 <= r < d && x == d * q + r
    ensures x / d == q && x % d == r
  {
    var q', r' := x / d, x % d;
    assert d * (q - q') == r' - r;
    if q - q' >= 1 {
      MulMonotone(1, q - q', d);
    } else if q - q' <= -1 {
      MulMonotone(1, q' - q, d);
    }
  }

  lemma MultipleMod(d: int, k: int)
    requires d > 0
    ensures (d * k) % d == 0 && (d * k) / d == k
  {
    ModUnique(d * k, d, k, 0);
  }

  /** Quotient of C#'s BigInteger division, truncated toward zero: the
      remainder a - b q it leaves has the sign of a and is smaller than b in
      magnitude, which fixes q; for non-negative operands it is Dafny's `/`. */
  function TDiv(a: int, b: int): (q: int)
    requires b != 0
    ensures Abs(a - b * q) < Abs(b)
    ensures a >= 0 ==> a - b * q >= 0
    ensures a <= 0 ==> a - b * q <= 0
    ensures a >= 0 && b > 0 ==> q == a / b
  {
    var m := Abs(a) / Abs(b);
    var q := if (a < 0) == (b < 0) then m else -m;
    TruncatedRemainder(a, b, q);
    q
  }

  /** Remainder of C#'s BigInteger `%`: it takes the sign of the dividend,
      is smaller than the divisor in magnitude, and is congruent to the
      dividend; for a non-negative dividend and a positive divisor it is
      Dafny's `%`. */
  function TRem(a: int, b: int): (r: int)
    requires b != 0
    ensures Abs(r) < Abs(b)
    ensures a >= 0 ==> r >= 0
    ensures a <= 0 ==> r <= 0
    ensures (a - r) % Abs(b) == 0
    ensures r == 0 <==> a % Abs(b) == 0
    ensures a >= 0 && b > 0 ==> r == a % b
  {
    TruncatedRemainder(a, b, TDiv(a, b));
    a - b * TDiv(a, b)
  }

  /** The remainder left by the truncated quotient q of a by b. */
  lemma TruncatedRemainder(a: int, b: int, q: int)
    requires b != 0
    requires q == if (a < 0) == (b < 0) then Abs(a) / Abs(b) else -(Abs(a) / Abs(b))
    ensures var r := a - b * q;
      && Abs(r) < Abs(b) && (a >= 0 ==> r >= 0) && (a <= 0 ==> r <= 0)
      && (a - r) % Abs(b) == 0 && (r == 0 <==> a % Abs(b) == 0)
      && (a >= 0 && b > 0 ==> r == a % b)
  {
    if a >= 0 {
      TruncatedRemainderOfNonNegative(a, b, q);
    } else {
      TruncatedRemainderOfNegative(a, b, q);
    }
  }

  lemma TruncatedRemainderOfNonNegative(a: int, b: int, q: int)
    requires a >= 0 && b != 0
    requires q == if (a < 0) == (b < 0) then Abs(a) / Abs(b) else -(Abs(a) / Abs(b))
    ensures var r := a - b * q;
      && 0 <= r < Abs(b) && (a == 0 ==> r == 0)
      && (a - r) % Abs(b) == 0 && r == a % Abs(b)
  {
    var m: int := Abs(b);
    var r := a - b * q;
    assert r == a - m * (a / m) by {
      TruncatedProduct(a, b, a / m, q);
    }
    RemainderOfNonNegative(a, m);
    if a == 0 {
      ModUnique(0, m, 0, 0);
    }
  }

  lemma TruncatedRemainderOfNegative(a: int, b: int, q: int)
    requires a < 0 && b != 0
    requires q == if (a < 0) == (b < 0) then Abs(a) / Abs(b) else -(Abs(a) / Abs(b))
    ensures var r := a - b * q;
      && -(Abs(b) as int) < r <= 0
      && (a - r) % Abs(b) == 0 && (r == 0 <==> a % Abs(b) == 0)
  {
    var m: int := Abs(b);
    var r := a - b * q;
    assert r == a + m * ((-a) / m) by {
      TruncatedProduct(a, b, (-a) / m, q);
    }
    RemainderOfNegative(a, m);
  }

  /** b times the truncated quotient q is |b| times the quotient m of the
      magnitudes, with the sign of a. */
  lemma TruncatedProduct(a: int, b: int, m: int, q: int)
    requires b != 0 && m == Abs(a) / Abs(b)
    requires q == if (a < 0) == (b < 0) then m else -m
    ensures a >= 0 ==> b * q == Abs(b) * m
    ensures a < 0 ==> b * q == -(Abs(b) * m)
  {
    if b < 0 {
      assert b * -m == Abs(b) * m;
    }
  }

  lemma RemainderOfNonNegative(a: int, m: int)
    requires a >= 0 && m > 0
    ensures var r := a - m * (a / m);
      r == a % m && 0 <= r < m && (a - r) % m == 0
  {
    MultipleMod(m, a / m);
  }

  lemma RemainderOfNegative(a: int, m: int)
    requires a < 0 && m > 0
    ensures var r := a + m * ((-a) / m);
      -m < r <= 0 && (a - r) % m == 0 && (r == 0 <==> a % m == 0)
  {
    var q := (-a) / m;
    assert a + m * q == -((-a) % m);
    MultipleMod(m, -q);
    assert a - (a + m * q) == m * (-q);
    NegatedDivisible(a, m);
  }

  lemma NegatedDivisible(x: int, m: int)
    requires m > 0
    ensures (-x) % m == 0 <==> x % m == 0
  {
    if x % m == 0 {
      assert -x == m * (-(x / m));
      MultipleMod(m, -(x / m));
    }
    if (-x) % m == 0 {
      assert x == m * (-((-x) / m));
      MultipleMod(m, -((-x) / m));
    }
  }

  // ---------------------------------------------------------------------
  // Divisibility and congruence
  // ---------------------------------------------------------------------

  /** d is a positive divisor of x. */
  predicate Divides(d: int, x: int) {
    d > 0 && x % d == 0
  }

  lemma DividesLinear(d: int, x: int, y: int, k: int)
    requires Divides(d, x) && Divides(d, y)
    ensures Divides(d, x + k * y)
  {
    var i, j := x / d, y / d;
    assert x == d * i && y == d * j;
    assert x + k * y == d * (i + k * j);
    MultipleMod(d, i + k * j);
  }

  lemma DividesProduct(d: int, x: int, k: int)
    requires Divides(d, x)
    ensures Divides(d, x * k)
  {
    DividesLinear(d, 0, x, k);
  }

  /** x and y leave the same remainder modulo m. */
  predicate Congruent(x: int, y: int, m: int)
    requires m > 0
  {
    (x - y) % m == 0
  }

  lemma CongruentMod(x: int, y: int, m: int)
    requires m > 0
    ensures Congruent(x, y, m) <==> x % m == y % m
  {
    var k := (x - y) / m;
    if Congruent(x, y, m) {
      assert x == m * (k + y / m) + y % m;
      ModUnique(x, m, k + y / m, y % m);
    } else if x % m == y % m {
      assert x - y == m * (x / m - y / m);
      MultipleMod(m, x / m - y / m);
    }
  }

  /** A number and its residue are congruent. */
  lemma ResidueCongruent(c: int, n: int)
    requires n > 0
    ensures Congruent(c % n, c, n)
  {
    ModUnique(c % n, n, 0, c % n);
    CongruentMod(c % n, c, n);
  }

  lemma CongruentLinear(x: int, x': int, y: int, y': int, k: int, m: int)
    requires m > 0 && Congruent(x, x', m) && Congruent(y, y', m)
    ensures Congruent(x + k * y, x' + k * y', m)
  {
    DividesLinear(m, x - x', y - y', k);
    assert (x + k * y) - (x' + k * y') == (x - x') + k * (y - y');
  }

  lemma CongruentScale(x: int, x': int, k: int, m: int)
    requires m > 0 && Congruent(x, x', m)
    ensures Congruent(x * k, x' * k, m)
  {
    DividesProduct(m, x - x', k);
    assert x * k - x' * k == (x - x') * k;
  }

  lemma MulMod(x: int, y: int, m: int)
    requires m > 0
    ensures (x * y) % m == ((x % m) * (y % m)) % m
  {
    var qx, qy := x / m, y / m;
    var rx, ry := x % m, y % m;
    MulExpand(x, y, m, qx, qy, rx, ry);
    MultipleMod(m, qx * y + rx * qy);
    assert Congruent(x * y, rx * ry, m);
    CongruentMod(x * y, rx * ry, m);
  }

  lemma MulExpand(x: int, y: int, m: int, qx: int, qy: int, rx: int, ry: int)
    requires x == m * qx + rx && y == m * qy + ry
    ensures x * y - rx * ry == m * (qx * y + rx * qy)
  {
    calc {
      x * y;
      m * qx * y + rx * y;
      m * qx * y + rx * (m * qy) + rx * ry;
      m * (qx * y + rx * qy) + rx * ry;
    }
  }

  // ---------------------------------------------------------------------
  // Greatest common divisor
  // ---------------------------------------------------------------------

  /** The Euclidean greatest common divisor of two naturals. */
  function Gcd(a: nat, b: nat): nat
    decreases b
  {
    if b == 0 then a else Gcd(b, a % b)
  }

  /** g is the greatest common divisor of a and b: a positive common divisor
      that every common divisor divides. */
  ghost predicate IsGcd(g: int, a: int, b: int) {
    && Divides(g, a) && Divides(g, b)
    && forall c :: Divides(c, a) && Divides(c, b) ==> Divides(c, g)
  }

  /** One Euclidean step keeps the common divisors: those of a and b are
      those of b and a mod b. */
  lemma EuclidStepDivisors(a: int, b: int, c: int)
    requires b > 0
    ensures Divides(c, a) && Divides(c, b) <==> Divides(c, b) && Divides(c, a % b)
  {
    var q := a / b;
    assert a == a % b + q * b;
    if Divides(c, a) && Divides(c, b) {
      DividesLinear(c, a, b, -q);
      assert a + (-q) * b == a % b;
    }
    if Divides(c, b) && Divides(c, a % b) {
      DividesLinear(c, a % b, b, q);
    }
  }

  lemma {:induction false} GcdIsGreatestCommonDivisor(a: nat, b: nat)
    requires a > 0 || b > 0
    ensures IsGcd(Gcd(a, b), a, b)
    decreases b
  {
    if b == 0 {
      MultipleMod(a, 1);
      MultipleMod(a, 0);
      assert Divides(a, a) && Divides(a, 0);
    } else {
      var g := Gcd(b, a % b);
      GcdIsGreatestCommonDivisor(b, a % b);
      EuclidStepDivisors(a, b, g);
      forall c | Divides(c, a) && Divides(c, b) ensures Divides(c, g) {
        EuclidStepDivisors(a, b, c);
      }
    }
  }

  /** For n >= 2, n - 1 and n share no factor. */
  lemma GcdOfPredecessor(n: nat)
    requires n >= 2
    ensures Gcd(n - 1, n) == 1
  {
    ModUnique(n - 1, n, 0, n - 1);
    assert Gcd(n - 1, n) == Gcd(n, n - 1);
    if n > 2 {
      ModUnique(n, n - 1, 1, 1);
      assert Gcd(n, n - 1) == Gcd(n - 1, 1);
    }
  }

  // ---------------------------------------------------------------------
  // Modular exponentiation
  // ---------------------------------------------------------------------

  /** BigInteger.ModPow: value^exponent with C#'s remainder by modulus;
      it throws on a negative exponent and on a zero modulus. */
  function ModPow(value: int, exponent: int, modulus: int): (r: Outcome<int>)
    ensures exponent < 0 ==> r == Fail(NegativeExponent)
    ensures exponent >= 0 && modulus == 0 ==> r == Fail(DivideByZero)
    ensures exponent >= 0 && modulus != 0 ==>
              r.Ok? && Abs(r.value) < Abs(modulus) &&
              (Pow(value, exponent) - r.value) % Abs(modulus) == 0
    ensures exponent >= 0 && modulus != 0 ==>
              (Pow(value, exponent) >= 0 ==> r.value >= 0) && (Pow(value, exponent) <= 0 ==> r.value <= 0)
    ensures value >= 0 && exponent >= 0 && modulus > 0 ==>
              r.Ok? && 0 <= r.value < modulus && r.value == Pow(value, exponent) % modulus
  {
    if exponent < 0 then Fail(NegativeExponent)
    else if modulus == 0 then Fail(DivideByZero)
    else Ok(PowMod(value, exponent, modulus))
  }

  /** ModPow for the arguments on which it does not throw. */
  function PowMod(value: int, exponent: nat, modulus: int): int
    requires modulus != 0
  {
    TRem(Pow(value, exponent), modulus)
  }

  /** Squaring a residue of a^m gives the residue of a^(2m). */
  lemma SquareStep(a: int, m: nat, n: int)
    requires a >= 0 && n > 0
    ensures PowMod(PowMod(a, m, n), 2, n) == PowMod(a, 2 * m, n)
  {
    var x := Pow(a, m);
    var v := x % n;
    assert PowMod(a, m, n) == v;
    assert Pow(v, 2) == v * v;
    PowAdd(a, m, m);
    assert Pow(a, 2 * m) == x * x;
    MulMod(x, x, n);
    assert (v * v) % n == (x * x) % n;
    assert v * v >= 0;
  }
}
