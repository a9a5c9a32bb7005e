/** The primality oracle and the numeric helpers of the prime search
    (GenPrimes, ConvertArrayToString and RandomBigInteger). The random
    number generator is replaced by parameters: the bytes it would fill, the
    Miller-Rabin bases it would draw. */
module Primegen {
  import opened Results
  import opened Arith
  import opened Decimal
  import opened NumberTheory

  // ---------------------------------------------------------------------
  // Trial division
  // ---------------------------------------------------------------------

  /** The filter primes of the quick scan. */
  const SmallPrimes: seq<int> := [2, 3, 5, 7, 11, 13, 17, 19, 23, 29]

  /** No filter prime other than the number itself divides it. */
  predicate QuickscanPasses(number: int) {
    forall c :: c in SmallPrimes ==> !(Divides(c, number) && number != c)
  }

  /** Trial division by the filter primes, in order: false as soon as one of
      them divides the number and is not the number. */
  method PrimeQuickscan(number: int) returns (passes: bool)
    ensures passes <==> QuickscanPasses(number)
  {
    for k := 0 to |SmallPrimes|
      invariant forall j :: 0 <= j < k ==> !(Divides(SmallPrimes[j], number) && number != SmallPrimes[j])
    {
      var check := SmallPrimes[k];
      if TRem(number, check) == 0 && number != check {
        assert check in SmallPrimes && Divides(check, number);
        return false;
      }
    }
    return true;
  }

  /** The quick scan never rejects a prime: neither a filter prime itself
      nor a prime above 29. */
  lemma QuickscanPassesPrimes(n: int)
    requires IsPrimeNumber(n)
    ensures QuickscanPasses(n)
  {
    forall c | c in SmallPrimes && n != c ensures !Divides(c, n) {
      if c > n {
        ModUnique(n, c, 0, n);
      } else {
        assert 2 <= c < n;
      }
    }
  }

  /** A multiple of a filter prime other than the prime itself is rejected. */
  lemma QuickscanRejectsMultiples(c: int, k: int)
    requires c in SmallPrimes && k != 1
    ensures !QuickscanPasses(c * k)
  {
    MultipleMod(c, k);
    assert Divides(c, c * k);
  }

  // ---------------------------------------------------------------------
  // Miller-Rabin
  // ---------------------------------------------------------------------

  /** The odd part s of m = s * 2^t. */
  function OddPart(m: nat): nat
    decreases m
  {
    if m > 0 && m % 2 == 0 then OddPart(m / 2) else m
  }

  /** The exponent t of m = s * 2^t with s odd. */
  function TwoExponent(m: nat): nat
    decreases m
  {
    if m > 0 && m % 2 == 0 then 1 + TwoExponent(m / 2) else 0
  }

  lemma {:induction false} Decomposition(m: nat)
    requires m > 0
    ensures m == OddPart(m) * Pow(2, TwoExponent(m))
    ensures OddPart(m) % 2 == 1
    ensures m % 2 == 0 ==> TwoExponent(m) >= 1
    decreases m
  {
    if m % 2 == 0 {
      Decomposition(m / 2);
      var s, t := OddPart(m / 2), TwoExponent(m / 2);
      calc {
        OddPart(m) * Pow(2, TwoExponent(m));
        s * Pow(2, t + 1);
        s * (2 * Pow(2, t));
        2 * (s * Pow(2, t));
        m;
      }
    }
  }

  /** Halve m while it is even and not zero: m == s * 2^t with s odd, or s == 0
      when m == 0. The halving is C#'s, which truncates toward zero. */
  method Decompose(m: int) returns (s: int, t: nat)
    ensures m == s * Pow(2, t)
    ensures s == 0 <==> m == 0
    ensures s != 0 ==> s % 2 == 1
    ensures m < 0 ==> s < 0
    ensures m >= 0 ==> s == OddPart(m) && t == TwoExponent(m)
  {
    s, t := m, 0;
    while TRem(s, 2) == 0 && s != 0
      invariant m == s * Pow(2, t)
      invariant s == 0 <==> m == 0
      invariant m < 0 ==> s < 0
      invariant m >= 0 ==> s >= 0 && OddPart(m) == OddPart(s) && TwoExponent(m) == t + TwoExponent(s)
      decreases Abs(s)
    {
      var half := TDiv(s, 2);
      HalvingStep(m, s, t);
      s, t := half, t + 1;
    }
  }

  /** One pass of the halving loop: s = 2 half, m = half 2^(t+1), and for
      positive s the odd part and exponent carry over to half. */
  lemma HalvingStep(m: int, s: int, t: nat)
    requires s != 0 && TRem(s, 2) == 0 && m == s * Pow(2, t)
    ensures s == 2 * TDiv(s, 2)
    ensures m == TDiv(s, 2) * Pow(2, t + 1)
    ensures s > 0 ==> OddPart(s) == OddPart(TDiv(s, 2)) && TwoExponent(s) == 1 + TwoExponent(TDiv(s, 2))
  {
    var half := TDiv(s, 2);
    assert s == 2 * half;
    calc {
      half * Pow(2, t + 1);
      half * (2 * Pow(2, t));
      (2 * half) * Pow(2, t);
    }
    if s > 0 {
      assert half == s / 2;
    }
  }

  /** Squaring a^(s 2^i) gives a^(s 2^(i+1)): the exponents. */
  lemma DoubledExponent(s: nat, i: nat)
    ensures s * Pow(2, i) >= 0
    ensures 2 * (s * Pow(2, i)) == s * Pow(2, i + 1)
  {
    var w := Pow(2, i);
    assert Pow(2, i + 1) == 2 * w;
    MulMonotone(0, s, w);
  }

  /** A Miller-Rabin round with base a on n - 1 = s * 2^t passes: a^s is 1
      modulo n, or one of a^s, a^(2s), ..., a^(2^(t-1) s) is n - 1 modulo n.
      a^s is compared with n - 1 before the round can end, so it is tested
      even when t is 0. */
  ghost predicate WitnessPasses(n: int, s: nat, t: nat, a: int)
    requires n >= 1
  {
    || PowMod(a, s, n) == 1
    || exists i: nat :: (i == 0 || i < t) && PowMod(a, s * Pow(2, i), n) == n - 1
  }

  /** One round of the test with base a: the repeated squaring of a^s modulo
      the number. It throws (from BigInteger.ModPow) when s is negative. */
  method WitnessRound(number: int, s: int, t: nat, a: int) returns (r: Outcome<bool>)
    requires a >= 0
    requires s >= 0 ==> number >= 1 && (t == 0 ==> number == 1)
    ensures s < 0 ==> r == Fail(NegativeExponent)
    ensures s >= 0 ==> r == Ok(WitnessPasses(number, s, t, a))
  {
    var first := ModPow(a, s, number);
    if first.Fail? {
      return Fail(first.error);
    }
    var v := first.value;
    assert v == PowMod(a, s * Pow(2, 0), number);
    if v != 1 {
      var i: nat := 0;
      while v != number - 1
        invariant i == 0 || i < t
        invariant t == 0 ==> v == number - 1
        invariant v == PowMod(a, s * Pow(2, i), number)
        invariant forall j: nat :: j < i ==> PowMod(a, s * Pow(2, j), number) != number - 1
        decreases t - i
      {
        if i == t - 1 {
          return Ok(false);
        }
        DoubledExponent(s, i);
        SquareStep(a, s * Pow(2, i), number);
        i := i + 1;
        v := ModPow(v, 2, number).value;
      }
    }
    return Ok(true);
  }

  /** The Miller-Rabin test with the given bases, one round per base (the
      source draws each base at random from [2, number - 1]). 2 is prime,
      other even numbers are not, the quick scan rejects some odd ones, and
      otherwise every round must pass. A negative odd number that survives
      the quick scan makes BigInteger.ModPow throw in the first round. */
  method IsPrime(number: int, bases: seq<int>) returns (r: Outcome<bool>)
    requires forall k :: 0 <= k < |bases| ==> bases[k] >= 0
    ensures number == 2 ==> r == Ok(true)
    ensures number != 2 && number % 2 == 0 ==> r == Ok(false)
    ensures number % 2 == 1 && !QuickscanPasses(number) ==> r == Ok(false)
    ensures number % 2 == 1 && QuickscanPasses(number) && number > 0 ==>
              r == Ok(forall k :: 0 <= k < |bases| ==>
                        WitnessPasses(number, OddPart(number - 1), TwoExponent(number - 1), bases[k]))
    ensures number % 2 == 1 && QuickscanPasses(number) && number < 0 ==>
              r == if bases == [] then Ok(true) else Fail(NegativeExponent)
    ensures IsPrimeNumber(number) && (forall k :: 0 <= k < |bases| ==> 1 <= bases[k] < number) ==>
              r == Ok(true)
    ensures number == 1 ==> r == Ok(true)
  {
    PassingNumbers(number, bases);
    if number == 2 {
      return Ok(true);
    }
    if TRem(number, 2) == 0 {
      return Ok(false);
    }
    var quick := PrimeQuickscan(number);
    if !quick {
      return Ok(false);
    }
    var s, t := Decompose(number - 1);
    if number > 1 {
      Decomposition(number - 1);
    }
    r := Rounds(number, s, t, bases);
  }

  /** The rounds of the test, one per base, in order: false at the first
      round that fails, and a throw from the first round when s is
      negative. */
  method Rounds(number: int, s: int, t: nat, bases: seq<int>) returns (r: Outcome<bool>)
    requires forall k :: 0 <= k < |bases| ==> bases[k] >= 0
    requires s >= 0 ==> number >= 1 && (t == 0 ==> number == 1)
    ensures s < 0 ==> r == if bases == [] then Ok(true) else Fail(NegativeExponent)
    ensures s >= 0 ==> r == Ok(forall k :: 0 <= k < |bases| ==> WitnessPasses(number, s, t, bases[k]))
  {
    for k := 0 to |bases|
      invariant s < 0 ==> k == 0
      invariant s >= 0 ==> forall j :: 0 <= j < k ==> WitnessPasses(number, s, t, bases[j])
    {
      var round := WitnessRound(number, s, t, bases[k]);
      if round.Fail? {
        return round;
      }
      if !round.value {
        return Ok(false);
      }
    }
    return Ok(true);
  }

  /** Miller-Rabin never rejects a prime: modulo an odd prime n, every base
      in [1, n - 1] passes its round, by Fermat's little theorem and because
      1 has no square roots other than 1 and n - 1. */
  lemma PrimesPassEveryRound(n: int, a: int)
    requires IsPrimeNumber(n) && n % 2 == 1 && 1 <= a < n
    ensures WitnessPasses(n, OddPart(n - 1), TwoExponent(n - 1), a)
  {
    var s, t := OddPart(n - 1), TwoExponent(n - 1);
    Decomposition(n - 1);
    ModUnique(a, n, 0, a);
    FermatUnit(n, a);
    CongruentMod(Pow(a, n - 1), 1, n);
    ModUnique(1, n, 0, 1);
    assert PowMod(a, s * Pow(2, t), n) == 1;
    if PowMod(a, s, n) != 1 {
      assert s * Pow(2, 0) == s;
      LastRootBeforeOne(n, a, s, t, 0);
    }
  }

  /** An odd prime passes the quick scan and every round whose base lies in
      [1, n - 1]. */
  lemma MillerRabinAcceptsPrimes(n: int, bases: seq<int>)
    requires IsPrimeNumber(n) && n != 2
    requires forall k :: 0 <= k < |bases| ==> 1 <= bases[k] < n
    ensures n % 2 == 1 && QuickscanPasses(n)
    ensures forall k :: 0 <= k < |bases| ==>
              WitnessPasses(n, OddPart(n - 1), TwoExponent(n - 1), bases[k])
  {
    QuickscanPassesPrimes(n);
    forall k | 0 <= k < |bases|
      ensures WitnessPasses(n, OddPart(n - 1), TwoExponent(n - 1), bases[k])
    {
      PrimesPassEveryRound(n, bases[k]);
    }
  }

  /** 1 is not prime, yet it is odd, passes the quick scan and passes every
      round: 1 - 1 = 0 gives s = 0 and t = 0, and a^0 modulo 1 is 0, which
      is n - 1. */
  lemma OnePassesEveryRound(bases: seq<int>)
    ensures !IsPrimeNumber(1) && 1 % 2 == 1 && QuickscanPasses(1)
    ensures forall k :: 0 <= k < |bases| ==> WitnessPasses(1, OddPart(0), TwoExponent(0), bases[k])
  {
    forall k | 0 <= k < |bases|
      ensures WitnessPasses(1, OddPart(0), TwoExponent(0), bases[k])
    {
      assert PowMod(bases[k], 0 * Pow(2, 0), 1) == 0;
    }
  }

  /** IsPrime with the guard it lacks: no number below 2 is prime, and from
      2 on it answers exactly as IsPrime does. It never rejects a prime, and
      below 31 * 31 it accepts nothing else, because a composite number there
      has a factor of at most 29. */
  method IsPrimeFromTwo(number: int, bases: seq<int>) returns (r: Outcome<bool>)
    requires forall k :: 0 <= k < |bases| ==> bases[k] >= 0
    ensures r.Ok?
    ensures r.value ==> number >= 2
    ensures r.value && number != 2 ==>
              && number % 2 == 1 && QuickscanPasses(number)
              && forall k :: 0 <= k < |bases| ==>
                   WitnessPasses(number, OddPart(number - 1), TwoExponent(number - 1), bases[k])
    ensures r.value && number < 31 * 31 ==> IsPrimeNumber(number)
    ensures number >= 2 ==>
              r == Ok(number == 2 ||
                      (number % 2 == 1 && QuickscanPasses(number) &&
                       forall k :: 0 <= k < |bases| ==>
                         WitnessPasses(number, OddPart(number - 1), TwoExponent(number - 1), bases[k])))
    ensures IsPrimeNumber(number) && (forall k :: 0 <= k < |bases| ==> 1 <= bases[k] < number) ==>
              r == Ok(true)
  {
    if number < 2 {
      return Ok(false);
    }
    r := IsPrime(number, bases);
    if r.value && number != 2 && number < 31 * 31 {
      QuickscanDecidesSmall(number);
    }
  }

  /** Below 31 * 31 the quick scan alone is exact: a composite n = d k there
      has a factor min(d, k) of at most 30, and that factor has a filter
      prime as a factor. */
  lemma QuickscanDecidesSmall(n: int)
    requires 2 <= n < 31 * 31 && QuickscanPasses(n)
    ensures IsPrimeNumber(n)
  {
    forall d | 2 <= d < n
      ensures n % d != 0
    {
      if n % d == 0 {
        CompositeFailsQuickscan(n, d);
        assert false;
      }
    }
  }

  /** A composite n below 31 * 31 is rejected by the quick scan. */
  lemma CompositeFailsQuickscan(n: int, d: int)
    requires 2 <= d < n < 31 * 31 && n % d == 0
    ensures !QuickscanPasses(n)
  {
    var m, j := SmallFactorOfComposite(n, d);
    var c := SmallPrimeFactor(m);
    DividesProduct(c, m, j);
    assert c in SmallPrimes && Divides(c, n) && n != c;
  }

  /** A composite n below 31 * 31 has a factor from 2 to 30 other than n. */
  lemma SmallFactorOfComposite(n: int, d: int) returns (m: int, j: int)
    requires 2 <= d < n < 31 * 31 && n % d == 0
    ensures 2 <= m <= 30 && m < n && n == m * j
  {
    var k := n / d;
    assert n == d * k;
    if k <= 1 {
      MulMonotone(k, 1, d);
      assert false;
    }
    m, j := if d <= k then d else k, if d <= k then k else d;
    assert n == m * j && m <= j;
    if m > 30 {
      MulMonotone(31, m, 31);
      MulMonotone(31, j, m);
      assert false;
    }
  }

  /** Every number from 2 to 30 has a filter prime among its factors. */
  lemma SmallPrimeFactor(m: int) returns (c: int)
    requires 2 <= m <= 30
    ensures c in SmallPrimes && Divides(c, m) && c <= m
  {
    if m % 2 == 0 {
      c := 2;
    } else if m % 3 == 0 {
      c := 3;
    } else if m % 5 == 0 {
      c := 5;
    } else {
      c := m;
    }
  }

  /** The numbers other than 2 that IsPrime accepts whatever the rounds:
      the odd primes with bases in [1, n - 1], and 1. */
  lemma PassingNumbers(number: int, bases: seq<int>)
    ensures (IsPrimeNumber(number) && number != 2 && (forall k :: 0 <= k < |bases| ==> 1 <= bases[k] < number))
            || number == 1 ==>
              && number > 0 && number % 2 == 1 && QuickscanPasses(number)
              && forall k :: 0 <= k < |bases| ==>
                   WitnessPasses(number, OddPart(number - 1), TwoExponent(number - 1), bases[k])
  {
    if number == 1 {
      OnePassesEveryRound(bases);
    } else if IsPrimeNumber(number) && number != 2 && (forall k :: 0 <= k < |bases| ==> 1 <= bases[k] < number) {
      MillerRabinAcceptsPrimes(number, bases);
    }
  }

  /** Squaring up from a residue other than 1 to a^(s 2^t), which is 1: the
      residue just before the first 1 is n - 1. */
  lemma {:induction false} LastRootBeforeOne(n: int, a: int, s: nat, t: nat, i: nat)
    requires IsPrimeNumber(n) && a >= 0 && i < t
    requires PowMod(a, s * Pow(2, t), n) == 1
    requires PowMod(a, s * Pow(2, i), n) != 1
    ensures exists j: nat :: i <= j < t && PowMod(a, s * Pow(2, j), n) == n - 1
    decreases t - i
  {
    var x := PowMod(a, s * Pow(2, i), n);
    DoubledExponent(s, i);
    SquareStep(a, s * Pow(2, i), n);
    if PowMod(a, s * Pow(2, i + 1), n) == 1 {
      assert Pow(x, 2) == x * x;
      SquareRootsOfOne(n, x);
    } else {
      LastRootBeforeOne(n, a, s, t, i + 1);
    }
  }

  // ---------------------------------------------------------------------
  // Candidates for the prime search
  // ---------------------------------------------------------------------

  type Byte = b: int | 0 <= b < 256

  /** The unsigned little-endian value of bytes. */
  function LittleEndian(bytes: seq<Byte>): nat {
    if bytes == [] then 0 else bytes[0] + 256 * LittleEndian(bytes[1..])
  }

  /** new BigInteger(bytes): little-endian two's complement, the top bit of
      the last byte being the sign; no bytes is 0. */
  function TwosComplement(bytes: seq<Byte>): (r: int)
    ensures r < 0 <==> bytes != [] && bytes[|bytes| - 1] >= 128
    ensures (LittleEndian(bytes) - r) % Pow(256, |bytes|) == 0
  {
    LittleEndianBound(bytes);
    MultipleMod(Pow(256, |bytes|), 1);
    MultipleMod(Pow(256, |bytes|), 0);
    if bytes != [] && bytes[|bytes| - 1] >= 128
    then LittleEndian(bytes) - Pow(256, |bytes|)
    else LittleEndian(bytes)
  }

  lemma {:induction false} LittleEndianLast(bytes: seq<Byte>)
    requires |bytes| >= 1
    ensures LittleEndian(bytes) ==
              LittleEndian(bytes[..|bytes| - 1]) + bytes[|bytes| - 1] * Pow(256, |bytes| - 1)
    decreases |bytes|
  {
    if |bytes| > 1 {
      var n := |bytes|;
      var init := bytes[..n - 1];
      LittleEndianLast(bytes[1..]);
      assert bytes[1..][..n - 2] == init[1..];
      assert bytes[1..][n - 2] == bytes[n - 1];
      assert LittleEndian(init) == bytes[0] + 256 * LittleEndian(init[1..]);
      assert Pow(256, n - 1) == 256 * Pow(256, n - 2);
      HornerStep(bytes[0], LittleEndian(init[1..]), bytes[n - 1], Pow(256, n - 2));
    } else {
      assert bytes[..0] == [];
    }
  }

  /** The arithmetic of one step of LittleEndianLast, on plain numbers. */
  lemma HornerStep(b0: int, rest: int, last: int, w: int)
    ensures b0 + 256 * (rest + last * w) == (b0 + 256 * rest) + last * (256 * w)
  {
  }

  lemma {:induction false} LittleEndianBound(bytes: seq<Byte>)
    ensures LittleEndian(bytes) < Pow(256, |bytes|)
    decreases |bytes|
  {
    if bytes != [] {
      LittleEndianBound(bytes[1..]);
    }
  }

  /** n bytes of two's complement hold the integers in [-2^(8n-1), 2^(8n-1)). */
  lemma TwosComplementRange(bytes: seq<Byte>)
    requires |bytes| >= 1
    ensures -Pow(2, 8 * |bytes| - 1) <= TwosComplement(bytes) < Pow(2, 8 * |bytes| - 1)
  {
    var n := |bytes|;
    var low := bytes[..n - 1];
    var p := Pow(256, n - 1);
    LittleEndianLast(bytes);
    LittleEndianBound(low);
    SignBitWeight(n);
    TopByteRange(LittleEndian(low), bytes[n - 1], p);
  }

  /** The weight of the sign bit of n bytes, and of the byte above them. */
  lemma SignBitWeight(n: nat)
    requires n >= 1
    ensures Pow(2, 8 * n - 1) == 128 * Pow(256, n - 1)
    ensures Pow(256, n) == 256 * Pow(256, n - 1)
  {
    assert Pow(2, 8) == 256;
    PowMul(2, 8, n - 1);
    PowAdd(2, 7, 8 * (n - 1));
    assert Pow(2, 7) == 128;
    PowAdd(256, 1, n - 1);
  }

  /** The range argument of TwosComplementRange on plain numbers: low bytes
      below p and a top byte of weight p. */
  lemma TopByteRange(low: int, top: int, p: int)
    requires 0 <= low < p && 0 <= top < 256
    ensures top >= 128 ==> -(128 * p) <= low + top * p - 256 * p < 128 * p
    ensures top < 128 ==> -(128 * p) <= low + top * p < 128 * p
  {
    if top >= 128 {
      MulMonotone(128, top, p);
      MulMonotone(top, 255, p);
    } else {
      MulMonotone(0, top, p);
      MulMonotone(top, 127, p);
    }
  }

  /** A random integer of byteLength bytes: the absolute value of the bytes
      read as a two's complement number. */
  function GetRandomByteLengthBigInteger(bytes: seq<Byte>): (r: nat)
    ensures |bytes| == 0 ==> r == 0
    ensures |bytes| >= 1 ==> r <= Pow(2, 8 * |bytes| - 1)
    ensures r == TwosComplement(bytes) || r == -TwosComplement(bytes)
  {
    var result := TwosComplement(bytes);
    if |bytes| >= 1 then TwosComplementRange(bytes); (if result < 0 then -result else result)
    else 0
  }

  /** The search never tests an even candidate: an even draw is moved to the
      next odd number. */
  function ForceOdd(candidate: int): (r: int)
    ensures r % 2 == 1
    ensures candidate <= r <= candidate + 1
  {
    if candidate % 2 == 0 then candidate + 1 else candidate
  }

  /** A candidate drawn from byteLength >= 1 bytes is odd and lies in
      [1, 2^(8 * byteLength - 1) + 1]. */
  lemma CandidateRange(bytes: seq<Byte>)
    requires |bytes| >= 1
    ensures var c := ForceOdd(GetRandomByteLengthBigInteger(bytes));
      c % 2 == 1 && 1 <= c <= Pow(2, 8 * |bytes| - 1) + 1
  {}

  /** A draw of zero bytes only gives the candidate 1, which IsPrime
      accepts: the search can record 1 as a prime. */
  lemma ZeroBytesGiveOne(bytes: seq<Byte>)
    requires forall k :: 0 <= k < |bytes| ==> bytes[k] == 0
    ensures ForceOdd(GetRandomByteLengthBigInteger(bytes)) == 1
  {
    LittleEndianOfZeros(bytes);
  }

  lemma {:induction false} LittleEndianOfZeros(bytes: seq<Byte>)
    requires forall k :: 0 <= k < |bytes| ==> bytes[k] == 0
    ensures LittleEndian(bytes) == 0
    decreases |bytes|
  {
    if bytes != [] {
      LittleEndianOfZeros(bytes[1..]);
    }
  }

  // ---------------------------------------------------------------------
  // The shared record of the prime search
  // ---------------------------------------------------------------------

  /** The search state of one prime search: how many primes were found and
      which. Workers record a prime under a lock; here a single step of
      that critical section. */
  class PrimeSearch {
    const target: int
    var count: int
    var primes: seq<int>

    /** As many primes as counted, and never more than the target. */
    ghost predicate Valid()
      reads this
    {
      count == |primes| && (count <= target || count == 0)
    }

    /** The reset at the start of a search. */
    constructor (target: int)
      ensures Valid()
      ensures this.target == target && count == 0 && primes == []
    {
      this.target := target;
      count := 0;
      primes := [];
    }

    /** Records a prime unless the target is already met. */
    method Record(candidate: int) returns (recorded: bool)
      requires Valid()
      modifies this
      ensures Valid()
      ensures recorded <==> old(count) < target
      ensures recorded ==> count == old(count) + 1 && primes == old(primes) + [candidate]
      ensures !recorded ==> count == old(count) && primes == old(primes)
    {
      if count >= target {
        return false;
      }
      count := count + 1;
      primes := primes + [candidate];
      return true;
    }
  }

  // ---------------------------------------------------------------------
  // Random integers with a given number of decimal digits
  // ---------------------------------------------------------------------

  /** The concatenated decimal texts of items. */
  function Concatenation(items: seq<int>): string {
    if items == [] then "" else Concatenation(items[..|items| - 1]) + IntToString(items[|items| - 1])
  }

  lemma {:induction false} ConcatenationOfDigits(items: seq<int>)
    requires forall k :: 0 <= k < |items| ==> 0 <= items[k] <= 9
    ensures |Concatenation(items)| == |items|
    ensures forall k :: 0 <= k < |items| ==> Concatenation(items)[k] == DigitChar(items[k])
    decreases |items|
  {
    if items != [] {
      ConcatenationOfDigits(items[..|items| - 1]);
    }
  }

  /** Appends the text of every item, in order. */
  method ConvertIntArrayToString(items: array<int>) returns (resolution: string)
    ensures resolution == Concatenation(items[..])
    ensures (forall k :: 0 <= k < items.Length ==> 0 <= items[k] <= 9) ==>
              |resolution| == items.Length &&
              forall k :: 0 <= k < items.Length ==> resolution[k] == DigitChar(items[k])
  {
    resolution := "";
    for i := 0 to items.Length
      invariant resolution == Concatenation(items[..i])
    {
      assert items[..i + 1][..i] == items[..i];
      resolution := resolution + IntToString(items[i]);
    }
    assert items[..items.Length] == items[..];
    if forall k :: 0 <= k < items.Length ==> 0 <= items[k] <= 9 {
      ConcatenationOfDigits(items[..]);
    }
  }

  /** The k-th decimal digit GetRandomLengthBigInteger makes of the bytes:
      1 to 9 for the first, 0 to 9 for the others. */
  function DrawnDigit(data: seq<Byte>, k: nat): (d: int)
    requires k < |data|
    ensures k == 0 ==> 1 <= d <= 9
    ensures 0 <= d <= 9
  {
    if k == 0 then TRem(data[k], 9) + 1 else TRem(data[k], 10)
  }

  /** A random integer with |data| decimal digits, made from one byte per
      digit; BigInteger.Parse of the empty text throws. */
  method GetRandomLengthBigInteger(data: seq<Byte>) returns (r: Outcome<int>)
    ensures |data| == 0 ==> r == Fail(Format)
    ensures |data| >= 1 ==> r.Ok? && Pow(10, |data| - 1) <= r.value < Pow(10, |data|)
    ensures |data| >= 1 ==>
              && r.Ok? && r.value >= 0
              && |NatToString(r.value)| == |data|
              && forall k :: 0 <= k < |data| ==> NatToString(r.value)[k] == DigitChar(DrawnDigit(data, k))
  {
    var randomLength := new int[|data|];
    for i := 0 to |data|
      invariant forall k :: 0 <= k < i ==> randomLength[k] == DrawnDigit(data, k)
    {
      if i == 0 {
        randomLength[i] := TRem(data[i], 9) + 1;
      } else {
        randomLength[i] := TRem(data[i], 10);
      }
    }
    var text := ConvertIntArrayToString(randomLength);
    if text == [] {
      return Fail(Format);
    }
    DrawnTextValue(data, text);
    return Ok(DigitsValue(text));
  }

  /** The text of the drawn digits parses to a number of exactly that many
      digits, whose text it is. */
  lemma DrawnTextValue(data: seq<Byte>, text: string)
    requires |data| >= 1 && |text| == |data|
    requires forall k :: 0 <= k < |data| ==> text[k] == DigitChar(DrawnDigit(data, k))
    ensures AllDigits(text)
    ensures Pow(10, |data| - 1) <= DigitsValue(text) < Pow(10, |data|)
    ensures NatToString(DigitsValue(text)) == text
  {
    assert text[0] == DigitChar(DrawnDigit(data, 0));
    DigitsValueBounds(text);
    NatToStringOfValue(text);
  }

  /** The number of digits GetRandom draws for [min, max]. For 0 <= min
      <= max + 1, and for a one-digit min whatever max is, it is at least
      ten, so the draw never is the empty text that Parse rejects. */
  function DrawLength(min: int, max: int): (r: int)
    ensures 0 <= min && (min <= max + 1 || min <= 9) ==> r >= 10
  {
    var length := |IntToString(max + 1)| - |IntToString(min)| + 10;
    if 0 <= min <= max + 1 then NatToStringLengthMonotone(min, max + 1); length
    else length
  }

  /** RandomBigInteger.GetRandom: a value in [min, max] (max inclusive) from
      the draw, a number of DrawLength(min, max) digits. The digits are drawn
      before max + 1 == min is tested, so a length below one throws even
      then: a negative one in `new byte[]`, zero in Parse of the empty text. */
  function GetRandom(min: int, max: int, draw: int): (r: Outcome<int>)
    ensures r.Ok? <==> DrawLength(min, max) >= 1
    ensures DrawLength(min, max) < 0 ==> r == Fail(NegativeLength)
    ensures DrawLength(min, max) == 0 ==> r == Fail(Format)
    ensures r.Ok? && min <= max && draw >= 0 ==> min <= r.value <= max
    ensures r.Ok? && min <= max && draw >= 0 ==> r.value == min + draw % (max + 1 - min)
    ensures r.Ok? && max + 1 == min ==> r.value == min
  {
    var length := DrawLength(min, max);
    var top := max + 1;
    if length < 0 then Fail(NegativeLength)
    else if length == 0 then Fail(Format)
    else if min == top then Ok(min)
    else Ok(TRem(draw, top - min) + min)
  }

  /** Every value of [min, max] is the image of some draw. */
  lemma GetRandomCoversRange(min: int, max: int, v: int)
    requires min <= v <= max && DrawLength(min, max) >= 1
    ensures GetRandom(min, max, v - min) == Ok(v)
  {
    ModUnique(v - min, max + 1 - min, 0, v - min);
  }
}
