/** RSA parameter derivation (Keygen) and the key types (PublicPrivateKeypair,
    KeyPair). The random draw for the public exponent is a parameter. */
module Keygen {
  import opened Results
  import opened Arith
  import opened NumberTheory
  import opened Primegen

  // ---------------------------------------------------------------------
  // Euclid and the canonical residue
  // ---------------------------------------------------------------------

  /** The iterative Euclidean algorithm. When a < b the first step only
      swaps a and b. */
  method FindGCF(a: int, b: int) returns (g: int)
    requires a >= 0 && b > 0
    ensures g == Gcd(a, b)
    ensures IsGcd(g, a, b)
  {
    GcdIsGreatestCommonDivisor(a, b);
    var x, y := a, b;
    var mod := 1;
    while mod != 0
      invariant x >= 0 && y >= 0
      invariant mod != 0 ==> y > 0
      invariant mod == 0 ==> y == 0
      invariant Gcd(x, y) == Gcd(a, b)
      decreases y
    {
      mod := TRem(x, y);
      x := y;
      y := mod;
    }
    return x;
  }

  /** The canonical residue of a negative a modulo a positive b: the
      remainder of -a is subtracted from b, and 0 stays 0. Any other signs
      are a misuse and throw, a being checked first. */
  function ProperBigIntModNegPos(a: int, b: int): (r: Outcome<int>)
    ensures r.Fail? <==> !(a < 0 && b > 0)
    ensures r.Fail? ==> r.error == ModOperandSigns
    ensures r.Ok? ==> 0 <= r.value < b && Congruent(r.value, a, b)
    ensures r.Ok? ==> (r.value == 0 <==> a % b == 0)
    ensures r.Ok? ==> r.value == a % b
  {
    if a >= 0 then Fail(ModOperandSigns)
    else if b <= 0 then Fail(ModOperandSigns)
    else
      var tempMod := TRem(a * -1, b);
      assert tempMod == (-a) % b;
      CanonicalResidue(a, b);
      if tempMod == 0 then Ok(0) else Ok(b - tempMod)
  }

  lemma CanonicalResidue(a: int, b: int)
    requires a < 0 && b > 0
    ensures var m := (-a) % b; (if m == 0 then 0 else b - m) == a % b
    ensures Congruent(a % b, a, b)
  {
    var m := (-a) % b;
    var q := (-a) / b;
    if m == 0 {
      NegatedDivisible(a, b);
    } else {
      assert a == b * (-q - 1) + (b - m);
      ModUnique(a, b, -q - 1, b - m);
    }
    ModUnique(a % b, b, 0, a % b);
    CongruentMod(a % b, a, b);
  }

  /** The modular inverse of e modulo tOfN by the extended Euclidean
      algorithm. The pairs (o1, t1) and (o2, t2) keep t * e == o modulo tOfN
      while o1, o2 run down the Euclidean remainders of tOfN and e; negative
      t values are brought back into [0, tOfN). */
  method FindEGCD(e: int, tOfN: int) returns (d: int)
    requires 1 <= e < tOfN
    requires Gcd(e, tOfN) == 1
    ensures 0 <= d < tOfN
    ensures (d * e) % tOfN == 1
  {
    var o1, o2, t1, t2 := tOfN, e, tOfN, 1;
    ModUnique(e, tOfN, 0, e);
    assert Gcd(o1, o2) == 1;
    assert t1 * e - o1 == tOfN * (e - 1);
    MultipleMod(tOfN, e - 1);
    assert Congruent(t1 * e, o1, tOfN);
    assert Congruent(t2 * e, o2, tOfN);
    while o1 != 1
      invariant 0 <= o2 < o1 <= tOfN
      invariant Gcd(o1, o2) == 1
      invariant 0 <= t1 <= tOfN && 0 <= t2 < tOfN
      invariant t1 == tOfN ==> t2 == 1
      invariant o1 == tOfN || t1 < tOfN
      invariant Congruent(t1 * e, o1, tOfN) && Congruent(t2 * e, o2, tOfN)
      decreases o2
    {
      EuclidStep(e, tOfN, o1, o2, t1, t2);
      var o3 := o1 - o2 * TDiv(o1, o2);
      var t3 := t1 - t2 * TDiv(o1, o2);
      if o3 < 0 {
        // o3 is the remainder of two positive numbers: this normalisation
        // is never needed
        assert false;
      }
      if t3 < 0 {
        var normalised := ProperBigIntModNegPos(t3, tOfN).value;
        CongruentResidue(normalised, t3, e, o3, tOfN);
        t3 := normalised;
      }
      o1, t1 := o2, t2;
      o2, t2 := o3, t3;
    }
    assert t1 < tOfN;
    CongruentMod(t1 * e, 1, tOfN);
    ModUnique(1, tOfN, 0, 1);
    return t1;
  }

  lemma Distribute(x: int, y: int, q: int, e: int)
    ensures (x - y * q) * e == x * e + (-q) * (y * e)
  {}

  /** One step of the extended Euclidean algorithm keeps its invariants:
      the remainders stay coprime and decrease, and t * e == o modulo tOfN. */
  lemma EuclidStep(e: int, tOfN: int, o1: int, o2: int, t1: int, t2: int)
    requires 1 <= e < tOfN && o1 != 1
    requires 0 <= o2 < o1 <= tOfN && Gcd(o1, o2) == 1
    requires 0 <= t1 <= tOfN && 0 <= t2 < tOfN && (t1 == tOfN ==> t2 == 1)
    requires Congruent(t1 * e, o1, tOfN) && Congruent(t2 * e, o2, tOfN)
    ensures o2 > 0 && TDiv(o1, o2) == o1 / o2
    ensures var q := o1 / o2; var o3 := o1 - o2 * q; var t3 := t1 - t2 * q;
      && o3 == o1 % o2 && 0 <= o3 < o2 && Gcd(o2, o3) == 1
      && t3 < tOfN && Congruent(t3 * e, o3, tOfN)
  {
    RemainderStep(o1, o2);
    CoefficientStep(e, tOfN, o1, o2, t1, t2, o1 / o2);
  }

  lemma RemainderStep(o1: int, o2: int)
    requires o1 != 1 && 0 <= o2 < o1 && Gcd(o1, o2) == 1
    ensures o2 > 0 && TDiv(o1, o2) == o1 / o2 && o1 / o2 >= 1
    ensures var o3 := o1 - o2 * (o1 / o2); o3 == o1 % o2 && 0 <= o3 < o2 && Gcd(o2, o3) == 1
  {}

  lemma CoefficientStep(e: int, tOfN: int, o1: int, o2: int, t1: int, t2: int, q: int)
    requires tOfN > 0 && q >= 1
    requires 0 <= t1 <= tOfN && 0 <= t2 < tOfN && (t1 == tOfN ==> t2 == 1)
    requires Congruent(t1 * e, o1, tOfN) && Congruent(t2 * e, o2, tOfN)
    ensures t1 - t2 * q < tOfN && Congruent((t1 - t2 * q) * e, o1 - o2 * q, tOfN)
  {
    CongruentLinear(t1 * e, o1, t2 * e, o2, -q, tOfN);
    Distribute(t1, t2, q, e);
    assert o1 - o2 * q == o1 + (-q) * o2;
    MulMonotone(1, q, t2);
  }

  /** Replacing t by its canonical residue keeps t * e == o modulo m. */
  lemma CongruentResidue(r: int, t: int, e: int, o: int, m: int)
    requires m > 0 && Congruent(r, t, m) && Congruent(t * e, o, m)
    ensures Congruent(r * e, o, m)
  {
    CongruentScale(r, t, e, m);
    CongruentLinear(r * e, t * e, t * e, o, 1, m);
    assert r * e - o == (r * e - t * e) + (t * e - o);
  }

  // ---------------------------------------------------------------------
  // Exponent selection and key generation
  // ---------------------------------------------------------------------

  /** The public exponent: the scan upward from start for a value coprime to
      tOfN. It ends at the first such value at or after start, and since
      tOfN - 1 is coprime to tOfN it neither wraps around nor redraws. */
  method SelectExponent(tOfN: int, start: int) returns (e: int)
    requires tOfN >= 3
    requires 2 <= start <= tOfN - 1
    ensures start <= e <= tOfN - 1
    ensures Gcd(e, tOfN) == 1
    ensures forall k :: start <= k < e ==> Gcd(k, tOfN) != 1
  {
    GcdOfPredecessor(tOfN);
    e := start;
    var g := FindGCF(e, tOfN);
    while g != 1
      invariant 2 <= start <= e <= tOfN - 1
      invariant g == Gcd(e, tOfN)
      invariant forall k :: start <= k < e ==> Gcd(k, tOfN) != 1
      decreases tOfN - 1 - e
    {
      e := e + 1;
      if e > tOfN - 1 {
        e := 2;
      }
      if e > tOfN - 1 {
        // the redraw: e was just set to 2 and tOfN - 1 >= 2
        assert false;
      }
      g := FindGCF(e, tOfN);
    }
  }

  /** The exponents of a key pair for tOfN from the start the draw gives: e
      is the first value at or after start that is coprime to tOfN, and d is
      its inverse modulo tOfN. */
  ghost predicate ExponentsFrom(tOfN: int, start: int, e: int, d: int)
    requires tOfN > 0
  {
    && 0 <= start <= e <= tOfN - 1
    && Gcd(e, tOfN) == 1
    && (forall k :: start <= k < e ==> Gcd(k, tOfN) != 1)
    && 0 <= d < tOfN && (d * e) % tOfN == 1
  }

  /** RSA parameters from two primes: n = p q, tOfN = (p - 1)(q - 1), a public
      exponent e coprime to tOfN from the draw, and its inverse d modulo
      tOfN. The private key is (d, n), the public key (e, n). */
  method GenerateRSAKeypair(prime1: int, prime2: int, draw: nat) returns (keypair: PublicPrivateKeypair)
    requires (prime1 - 1) * (prime2 - 1) >= 3
    ensures fresh(keypair) && fresh(keypair.PrivateKey) && fresh(keypair.PublicKey)
    ensures keypair.PrivateKey.Valid() && keypair.PublicKey.Valid()
    ensures keypair.PrivateKey.keyPairType == PRIVATE && keypair.PublicKey.keyPairType == PUBLIC
    ensures keypair.PrivateKey.keyPartTwo == prime1 * prime2 == keypair.PublicKey.keyPartTwo
    ensures var tOfN := (prime1 - 1) * (prime2 - 1);
      ExponentsFrom(tOfN, GetRandom(2, tOfN - 1, draw).value,
                    keypair.PublicKey.keyPartOne, keypair.PrivateKey.keyPartOne)
  {
    var n := prime1 * prime2;
    var tOfN := (prime1 - 1) * (prime2 - 1);
    var e := GetRandom(2, tOfN - 1, draw).value;
    e := SelectExponent(tOfN, e);
    var d := FindEGCD(e, tOfN);
    keypair := new PublicPrivateKeypair(d, e, n);
  }

  /** GenerateRSAKeypair(byteSize) once the prime search has delivered its
      two primes: generate the keys, encrypt 2 with the public key, decrypt
      the result with the private key and throw unless 2 comes back. For two
      distinct primes the check always passes, and the pair returned is the
      one GenerateRSAKeypair(p, q) built. */
  method GenerateCheckedRSAKeypair(prime1: int, prime2: int, draw: nat) returns (r: Outcome<PublicPrivateKeypair>)
    requires IsPrimeNumber(prime1) && IsPrimeNumber(prime2) && prime1 != prime2
    requires (prime1 - 1) * (prime2 - 1) >= 3
    ensures r.Ok?
    ensures r.value.PrivateKey.Valid() && r.value.PublicKey.Valid()
    ensures r.value.PrivateKey.keyPairType == PRIVATE && r.value.PublicKey.keyPairType == PUBLIC
    ensures r.value.PrivateKey.keyPartTwo == prime1 * prime2 == r.value.PublicKey.keyPartTwo
    ensures var tOfN := (prime1 - 1) * (prime2 - 1);
      ExponentsFrom(tOfN, GetRandom(2, tOfN - 1, draw).value,
                    r.value.PublicKey.keyPartOne, r.value.PrivateKey.keyPartOne)
  {
    var keypair := GenerateRSAKeypair(prime1, prime2, draw);
    // Neither ModPow throws: the exponents are non-negative, the modulus positive.
    var encrypted := keypair.PublicKey.CryptUsingKeypair(2).value;
    var decrypted := keypair.PrivateKey.CryptUsingKeypair(encrypted).value;
    SelfCheckPasses(prime1, prime2, keypair.PublicKey.keyPartOne, keypair.PrivateKey.keyPartOne);
    if decrypted != 2 {
      return Fail(KeypairCheck);
    }
    return Ok(keypair);
  }

  /** The self-check on the exponents: 2^e, reduced modulo pq and raised to
      d, leaves remainder 2. */
  lemma SelfCheckPasses(p: int, q: int, e: int, d: int)
    requires IsPrimeNumber(p) && IsPrimeNumber(q) && p != q
    requires e >= 0 && d >= 0 && (d * e) % ((p - 1) * (q - 1)) == 1
    ensures Pow(Pow(2, e) % (p * q), d) % (p * q) == 2
  {
    if p < q {
      MulMonotone(2, p, q);
      MulMonotone(3, q, 2);
    } else {
      MulMonotone(2, q, p);
      MulMonotone(3, p, 2);
    }
    assert d * e == e * d;
    RsaRoundTrip(p, q, e, d, 2);
  }

  // ---------------------------------------------------------------------
  // Keys
  // ---------------------------------------------------------------------

  const PUBLIC: string := "public"
  const PRIVATE: string := "private"

  /** Lower case of an ASCII letter; every other character is kept. */
  function LowerChar(c: char): char {
    if 'A' <= c <= 'Z' then (c as int - 'A' as int + 'a' as int) as char else c
  }

  function ToLower(s: string): (r: string)
    ensures |r| == |s| && forall k :: 0 <= k < |s| ==> r[k] == LowerChar(s[k])
  {
    if s == [] then [] else [LowerChar(s[0])] + ToLower(s[1..])
  }

  lemma LowerOfTags()
    ensures ToLower(PUBLIC) == PUBLIC && ToLower(PRIVATE) == PRIVATE
  {
    assert ToLower(PUBLIC) == PUBLIC;
    assert ToLower(PRIVATE) == PRIVATE;
  }

  /** The tag of a key from any string: "public" or "private" in any case
      are kept, anything else is "private". */
  function ValidateKeyPairType(testType: string): (r: string)
    ensures r == PUBLIC || r == PRIVATE
    ensures r == PUBLIC <==> ToLower(testType) == PUBLIC
    ensures ToLower(testType) == PRIVATE ==> r == PRIVATE
  {
    var lower := ToLower(testType);
    if lower == PRIVATE then PRIVATE
    else if lower == PUBLIC then PUBLIC
    else PRIVATE
  }

  /** Validating a validated tag changes nothing. */
  lemma ValidateKeyPairTypeIdempotent(testType: string)
    ensures ValidateKeyPairType(ValidateKeyPairType(testType)) == ValidateKeyPairType(testType)
  {
    LowerOfTags();
  }

  /** Validation ignores case. */
  lemma ValidateKeyPairTypeIgnoresCase(testType: string)
    ensures ValidateKeyPairType(ToLower(testType)) == ValidateKeyPairType(testType)
  {
    ToLowerIdempotent(testType);
  }

  lemma ToLowerIdempotent(s: string)
    ensures ToLower(ToLower(s)) == ToLower(s)
  {
    assert forall k :: 0 <= k < |s| ==> LowerChar(LowerChar(s[k])) == LowerChar(s[k]);
  }

  /** The tag a stored key is loaded with: only the exact strings "public"
      and "private" are accepted; anything else throws. */
  function StoredKeyPairType(value: string): (r: Outcome<string>)
    ensures r.Ok? <==> value == PUBLIC || value == PRIVATE
    ensures r.Ok? ==> r.value == value == ValidateKeyPairType(value)
    ensures r.Fail? ==> r.error == InvalidKeyPairType
  {
    LowerOfTags();
    if value == PUBLIC then Ok(PUBLIC)
    else if value == PRIVATE then Ok(PRIVATE)
    else Fail(InvalidKeyPairType)
  }

  /** Loading is stricter than setting: "PUBLIC" is refused by the loader
      and read as "public" by the setter. */
  lemma LoadAndSetDisagree()
    ensures StoredKeyPairType("PUBLIC").Fail? && ValidateKeyPairType("PUBLIC") == PUBLIC
  {
    assert ToLower("PUBLIC") == PUBLIC;
  }

  /** One key: exponent keyPartOne, modulus keyPartTwo and a tag. */
  class KeyPair {
    var keyPartOne: int
    var keyPartTwo: int
    var keyPairType: string

    /** The tag is always one of the two valid values. */
    ghost predicate Valid()
      reads this
    {
      keyPairType == PUBLIC || keyPairType == PRIVATE
    }

    constructor (akeyPairType: string, akeyPartOne: int, akeyPartTwo: int)
      ensures Valid()
      ensures keyPartOne == akeyPartOne && keyPartTwo == akeyPartTwo
      ensures keyPairType == ValidateKeyPairType(akeyPairType)
    {
      keyPartOne := akeyPartOne;
      keyPartTwo := akeyPartTwo;
      keyPairType := ValidateKeyPairType(akeyPairType);
    }

    /** The setter of KeyPairType. */
    method SetKeyPairType(value: string)
      modifies this
      ensures Valid()
      ensures keyPairType == ValidateKeyPairType(value)
      ensures keyPartOne == old(keyPartOne) && keyPartTwo == old(keyPartTwo)
    {
      keyPairType := ValidateKeyPairType(value);
    }

    /** Textbook RSA: number^keyPartOne modulo keyPartTwo. */
    function CryptUsingKeypair(number: int): (r: Outcome<int>)
      reads this
      ensures keyPartOne < 0 ==> r == Fail(NegativeExponent)
      ensures keyPartOne >= 0 && keyPartTwo == 0 ==> r == Fail(DivideByZero)
      ensures keyPartOne >= 0 && keyPartTwo != 0 ==>
                && r.Ok? && Abs(r.value) < Abs(keyPartTwo)
                && (Pow(number, keyPartOne) - r.value) % Abs(keyPartTwo) == 0
                && (Pow(number, keyPartOne) >= 0 ==> r.value >= 0)
                && (Pow(number, keyPartOne) <= 0 ==> r.value <= 0)
      ensures number >= 0 && keyPartOne >= 0 && keyPartTwo > 0 ==>
                r.Ok? && 0 <= r.value < keyPartTwo && Congruent(r.value, Pow(number, keyPartOne), keyPartTwo)
    {
      var r := ModPow(number, keyPartOne, keyPartTwo);
      if r.Ok? && number >= 0 && keyPartOne >= 0 && keyPartTwo > 0 then
        CongruentMod(r.value, Pow(number, keyPartOne), keyPartTwo);
        ModUnique(r.value, keyPartTwo, 0, r.value);
        r
      else r
    }
  }

  /** A private and a public key over one modulus. */
  class PublicPrivateKeypair {
    var PrivateKey: KeyPair
    var PublicKey: KeyPair

    constructor (aPrivateKey: int, aPublicKey: int, aKeyPart2: int)
      ensures fresh(PrivateKey) && fresh(PublicKey)
      ensures PrivateKey.Valid() && PublicKey.Valid()
      ensures PrivateKey.keyPairType == PRIVATE && PrivateKey.keyPartOne == aPrivateKey
      ensures PublicKey.keyPairType == PUBLIC && PublicKey.keyPartOne == aPublicKey
      ensures PrivateKey.keyPartTwo == aKeyPart2 && PublicKey.keyPartTwo == aKeyPart2
    {
      LowerOfTags();
      PrivateKey := new KeyPair(PRIVATE, aPrivateKey, aKeyPart2);
      PublicKey := new KeyPair(PUBLIC, aPublicKey, aKeyPart2);
    }
  }
}
