# RSA key generation: the arithmetic core

A Dafny model of the numeric core of RSAKeygenLib, a C# library that generates
RSA key pairs from scratch. The model covers

- the primality oracle of `GenPrimes` (Primegen.cs): trial division by the
  primes up to 29 (`PrimeQuickscan`) and the Miller–Rabin test (`IsPrime`),
  with the random bases given as a sequence;
- the helpers that make candidates and random numbers: the byte decoding
  of `GetRandomByteLenghtBigIntiger` and the step that forces a candidate
  odd, the decimal-digit draw `GetRandomLenghtBigIntiger` with
  `ConvertIntArrayToString`, and `RandomBigInteger.GetRandom`;
- the critical section of the parallel prime search, in which a worker
  records a prime it found (`PrimeSearch.Record`);
- RSA parameter derivation in `Keygen` (Keygen.cs): the Euclidean gcd
  `FindGCF`, the modular inverse `FindEGCD` with its canonical-residue
  helper `ProperBigIntModNegPos`, the exponent scan and the packaging of
  `GenerateRSAKeypair(p, q)`;
- the key types: `KeyPair` with its validated tag and textbook RSA
  `CryptUsingKeypair`, and `PublicPrivateKeypair`.

`BigInteger` becomes Dafny's unbounded `int`. C#'s `/` and `%` on
`BigInteger` truncate toward zero; `Arith.TDiv` and `Arith.TRem` model them,
and the code uses them wherever the source divides or takes a remainder
(only the parity test `IsEven` is written with Dafny's `%`, which gives the
same parity). `BigInteger.ModPow`
becomes `Arith.ModPow`, a power followed by that remainder, failing as the
library does on a negative exponent or a zero modulus. Exceptions become
`Results.Outcome` values.

Beyond the contracts of the operations, the model proves the two promises the
library makes about its results: a prime is never rejected by the
Miller–Rabin test (`Primegen.PrimesPassEveryRound`), and keys generated from
two distinct primes are a correct RSA pair, so for such primes the
self-check of `GenerateRSAKeypair(byteSize)` never throws
(`NumberTheory.RsaRoundTrip`, `Keygen.GenerateCheckedRSAKeypair`). The prime
search only delivers numbers that passed `IsPrime`, which is weaker: a
Miller–Rabin false positive, or the number 1 (see Findings), is not covered.
Both rest on Fermat's little theorem, proved in `numbertheory.dfy` from the
binomial theorem and Euclid's lemma.

Files: `results.dfy` (outcomes), `arith.dfy` (powers, truncating division,
divisibility, gcd, modular exponentiation), `numbertheory.dfy` (primes,
Bezout, Euclid's lemma, Fermat's little theorem, RSA correctness),
`decimal.dfy` (decimal text of integers), `primegen.dfy` (Primegen.cs),
`keygen.dfy` (Keygen.cs).

## Model

| member | source | states |
|---|---|---|
| Arith.TDiv | Keygen.cs:78-79 | C#'s quotient, truncated toward zero: the remainder a − b·q it leaves has the sign of a and is smaller than b in magnitude, which determines q; Dafny's `/` for a ≥ 0 and b > 0 |
| Arith.TRem | Keygen.cs:60 | C#'s remainder: sign of the dividend, smaller than the divisor in magnitude, congruent to the dividend, zero exactly when the divisor divides; Dafny's `%` for non-negative operands |
| Arith.ModPow | Keygen.cs:212 | `BigInteger.ModPow`: fails on a negative exponent, then on a zero modulus; otherwise a value congruent to value^exponent, smaller than the modulus in magnitude and with the sign of value^exponent (so −3 for (−2)^3 modulo 5); in [0, modulus) for non-negative value and positive modulus |
| Arith.GcdIsGreatestCommonDivisor | Keygen.cs:55-65 | the Euclidean `Gcd` divides both arguments and every common divisor divides it |
| Arith.GcdOfPredecessor | Keygen.cs:37-51 | n − 1 and n are coprime for n ≥ 2, which is why the exponent scan stops by tOfN − 1 |
| Keygen.FindGCF | Keygen.cs:55-65 | for a ≥ 0 and b > 0 the loop terminates and returns the greatest common divisor of a and b |
| Keygen.ProperBigIntModNegPos | Keygen.cs:91-106 | fails unless a < 0 and b > 0; otherwise returns the canonical residue of a modulo b: in [0, b), congruent to a, 0 exactly when b divides a |
| Keygen.CanonicalResidue | Keygen.cs:101-104 | b minus the remainder of −a (or 0 when that remainder is 0) is the Euclidean residue of a modulo b |
| Keygen.EuclidStep | Keygen.cs:76-88 | one step of the extended Euclidean loop keeps the remainders positive, decreasing and coprime and keeps t·e ≡ o (mod tOfN) |
| Keygen.CongruentResidue | Keygen.cs:82-83 | replacing a negative t by its canonical residue keeps t·e ≡ o (mod tOfN) |
| Keygen.FindEGCD | Keygen.cs:67-90 | for 1 ≤ e < tOfN with gcd(e, tOfN) = 1 the loop terminates with o1 = 1 and returns d in [0, tOfN) with d·e ≡ 1 (mod tOfN); the normalisation of a negative remainder o3 is proved never to happen |
| Keygen.SelectExponent | Keygen.cs:37-51 | for tOfN ≥ 3 and a start in [2, tOfN − 1] the scan returns the first e ≥ start coprime to tOfN, e ≤ tOfN − 1, after at most tOfN − 3 steps; the redraw branch is proved unreachable |
| Keygen.GenerateRSAKeypair | Keygen.cs:29-54 | n = p·q, tOfN = (p − 1)(q − 1); the private key is (d, n) tagged "private", the public key (e, n) tagged "public"; e is the first number at or after the drawn start that is coprime to tOfN, e ≤ tOfN − 1, and d in [0, tOfN) is its inverse: d·e ≡ 1 (mod tOfN) |
| Keygen.SelfCheckPasses | Keygen.cs:20 | for distinct primes p, q and d·e ≡ 1 (mod (p − 1)(q − 1)), decrypting the encryption of 2 gives 2 |
| Keygen.GenerateCheckedRSAKeypair | Keygen.cs:15-22 | given two distinct primes (other than {2, 3}), the generated pair always passes the encrypt-2/decrypt check, so the method never throws, and it returns the pair `GenerateRSAKeypair(p, q)` built: tags "private" and "public", modulus p·q for both, e the first coprime at or after the draw, d its inverse modulo tOfN |
| NumberTheory.RsaRoundTrip | Keygen.cs:210-213 | with two distinct primes and d·e ≡ 1 (mod (p − 1)(q − 1)), applying the public then the private `CryptUsingKeypair` to any m in [0, pq) returns m |
| Keygen.ToLower | Keygen.cs:218 | `string.ToLower` on ASCII: same length, every letter A–Z replaced by its lower case, every other character kept |
| Keygen.ValidateKeyPairType | Keygen.cs:215-227 | the result is "public" or "private"; it is "public" exactly when the lower-cased input is "public" |
| Keygen.ValidateKeyPairTypeIdempotent | Keygen.cs:215-227 | validating a validated tag gives it back |
| Keygen.ValidateKeyPairTypeIgnoresCase | Keygen.cs:218 | validation only depends on the lower-cased input |
| Keygen.StoredKeyPairType | Keygen.cs:169-181 | loading a stored tag accepts exactly "public" and "private", then agreeing with the setter, and throws otherwise |
| Keygen.LoadAndSetDisagree | Keygen.cs:169-181 | the loader refuses "PUBLIC" while the setter reads it as "public" |
| Keygen.KeyPair.constructor | Keygen.cs:197-202 | stores both key parts and the validated tag, so the tag is valid |
| Keygen.KeyPair.SetKeyPairType | Keygen.cs:204-208 | stores the validated tag and changes nothing else |
| Keygen.KeyPair.CryptUsingKeypair | Keygen.cs:210-213 | fails as `ModPow` does on a negative exponent or a zero modulus; otherwise succeeds with a value congruent to number^keyPartOne modulo keyPartTwo, smaller than keyPartTwo in magnitude and with the sign of number^keyPartOne; in [0, keyPartTwo) for a non-negative number and a positive modulus |
| Keygen.PublicPrivateKeypair.constructor | Keygen.cs:144-148 | two fresh keys over the same modulus, the private one tagged "private", the public one "public" |
| Primegen.PrimeQuickscan | Primegen.cs:24-33 | returns false exactly when some filter prime c in {2, …, 29} divides the number and the number is not c |
| Primegen.QuickscanPassesPrimes | Primegen.cs:11-33 | every prime passes the quick scan, the filter primes themselves included |
| Primegen.QuickscanRejectsMultiples | Primegen.cs:27-31 | a multiple c·k of a filter prime c with k ≠ 1 is rejected |
| Primegen.Decomposition | Primegen.cs:48-55 | for m > 0, m = OddPart(m)·2^TwoExponent(m) with an odd OddPart(m), and an even m has TwoExponent(m) ≥ 1 |
| Primegen.Decompose | Primegen.cs:48-55 | the halving loop ends with m = s·2^t, s odd unless m = 0, and for m ≥ 0 with s, t the odd part and exponent of m |
| Primegen.OnePassesEveryRound | Primegen.cs:37-79 | 1 is not prime, yet it is odd, passes the quick scan, and with s = t = 0 passes every round |
| Primegen.WitnessRound | Primegen.cs:56-78 | a round with base a passes exactly when a^s ≡ 1 or a^(s·2^i) ≡ n − 1 (mod n) for some i < t; it fails when s is negative |
| Primegen.Rounds | Primegen.cs:56-78 | the rounds in order, one per base: for s ≥ 0 true exactly when every base passes its round; for s < 0 the first round throws (no rounds: true) |
| Primegen.IsPrime | Primegen.cs:34-81 | true for 2; false for other even numbers and for numbers the quick scan rejects; otherwise true exactly when every base passes its round; a negative number that gets that far throws; a prime with bases in [1, n − 1] always gives true; 1 gives true as well |
| Primegen.IsPrimeFromTwo | Primegen.cs:34-81 | the test with a guard for numbers below 2: it never throws and accepts no number below 2; from 2 on it gives exactly the answer of `IsPrime`: true for 2, and otherwise true exactly when the number is odd, passes the quick scan and passes every round; it accepts no composite below 31·31, and accepts every prime whose bases lie in [1, n − 1] |
| Primegen.QuickscanDecidesSmall | Primegen.cs:24-33 | a number in [2, 31·31) that passes the quick scan is prime |
| Primegen.MillerRabinAcceptsPrimes | Primegen.cs:34-81 | an odd prime passes the quick scan and every round with a base in [1, n − 1], so `IsPrime` answers true for it |
| Primegen.PrimesPassEveryRound | Primegen.cs:56-79 | for an odd prime n every base a in [1, n − 1] passes its round, so the `return false` of a round is only reached for composite numbers |
| Primegen.LastRootBeforeOne | Primegen.cs:62-76 | squaring from a residue other than 1 up to a^(n−1) ≡ 1 modulo a prime meets n − 1 before the first 1 |
| Primegen.TwosComplement | Primegen.cs:178 | `new BigInteger(bytes)`: negative exactly when the top bit of the last byte is set, and congruent to the unsigned little-endian value modulo 256^n |
| Primegen.TwosComplementRange | Primegen.cs:178 | n bytes of little-endian two's complement denote a number in [−2^(8n−1), 2^(8n−1)) |
| Primegen.GetRandomByteLengthBigInteger | Primegen.cs:174-182 | the absolute value of the bytes read as two's complement: 0 for no bytes, at most 2^(8n−1) for n bytes |
| Primegen.ForceOdd | Primegen.cs:115-116 | the least odd number not below the candidate |
| Primegen.CandidateRange | Primegen.cs:114-116 | a candidate drawn from n ≥ 1 bytes is odd and in [1, 2^(8n−1) + 1] |
| Primegen.ZeroBytesGiveOne | Primegen.cs:114-116 | a draw of zero bytes only becomes the candidate 1 |
| Primegen.PrimeSearch.constructor | Primegen.cs:87-88 | the search starts with count 0 and no primes |
| Primegen.PrimeSearch.Record | Primegen.cs:121-132 | at or above the target nothing changes; below it the count grows by one and exactly the candidate is appended; count = number of primes ≤ target is kept |
| Primegen.ConvertIntArrayToString | Primegen.cs:186-195 | the texts of the items concatenated in order; for digits, one character per item |
| Primegen.DrawnDigit | Primegen.cs:164-167 | the digit made of a byte: in 1..9 for the first position, in 0..9 for the others |
| Primegen.GetRandomLengthBigInteger | Primegen.cs:153-173 | fails for length 0; otherwise a number with exactly len decimal digits, in [10^(len−1), 10^len), whose first digit is b mod 9 + 1 and whose other digits are b mod 10 |
| Primegen.DrawLength | Primegen.cs:204 | the number of digits drawn is at least ten when 0 ≤ min ≤ max + 1, and when min is a single digit whatever max is (as in `IsPrime(1)`, which draws for [2, 0]) |
| Primegen.GetRandom | Primegen.cs:201-211 | succeeds exactly when the digit count is at least 1; a negative count throws in `new byte[]`, a zero count in `Parse`, even when max + 1 = min; otherwise, for min ≤ max and a non-negative draw, the result is in [min, max], max included, and min when max + 1 = min |
| Decimal.IntToString | Primegen.cs:192 | `Convert.ToString`: never empty, starting with a minus sign exactly for a negative value, and all digits apart from that sign with no leading zero, so with `ValueOfIntToString` it is the canonical decimal text and its length is the one Primegen.cs:204 measures |
| Decimal.ValueOfIntToString | Primegen.cs:192 | the digits of `Convert.ToString` read back as the magnitude of the value |
| Decimal.DigitsValue | Primegen.cs:172 | `BigInteger.Parse` on a digit string: the value denoted, most significant digit first, below 10^len |
| Decimal.ValueOfNatToString | Primegen.cs:172 | parsing the decimal text of a natural gives it back |
| Decimal.NatToStringOfValue | Primegen.cs:172 | a digit string without a leading zero is the text of its value |
| Decimal.DigitsValueBounds | Primegen.cs:172 | a digit string of length len without a leading zero denotes a number in [10^(len−1), 10^len) |
| Decimal.NatToStringLengthMonotone | Primegen.cs:204 | a larger natural never has a shorter decimal text |

## Left out

- The parallel search (`GenLargePrimes`, the worker loop of `FindLargePrimes`, the static shared counter and list, the lock, `Task.WaitAny`): concurrency is not modelled; only the critical section that records a prime is, as `PrimeSearch.Record`.
- The cryptographic random number generator: the bytes it fills, the Miller–Rabin bases and the draw for the public exponent are parameters. Uniformity and the 4^−k error bound of Miller–Rabin are statements about probability and are not modelled.
- Console output, `Console.ReadKey` and the file output branch of the search.
- `Region` persistence (`Save`, the loading constructors) and the `BigInteger.Parse`/`ToString` round trip of stored keys: the persistence library is not part of this model. Only the tag switch of the loader is modelled, as `StoredKeyPairType`.
- `GenerateRSAKeypair(int byteSize)`: the prime search that feeds it is not modelled; its self-check is, as `GenerateCheckedRSAKeypair`, with the two primes as parameters.
- Keygen.GenerateCheckedRSAKeypair: requires two distinct numbers that are prime. The parallel search delivers numbers that passed `IsPrime`, which is weaker: it is not shown to deliver distinct ones (for equal primes the check can fail), a composite that passes every Miller–Rabin round is not covered, and neither is the number 1, which `IsPrime` accepts (see Findings): with 1 as a prime tOfN is 0 and `FindGCF(e, 0)` divides by zero.
- Keygen.GenerateRSAKeypair: requires (p − 1)(q − 1) ≥ 3. That excludes only p = q = 2 (tOfN = 1) and {2, 3} (tOfN = 2) among primes; for {2, 3} the source's scan never ends, since the wrap and the redraw both give 2 again.
- Keygen.ToLower: maps ASCII letters only, so the culture-dependent lower-casing of other letters by `string.ToLower` is not modelled.
- Keygen.ValidateKeyPairType: lower-cases ASCII letters only; `string.ToLower` follows the current culture (in a Turkish culture "PUBLIC" does not lower-case to "public").
- Primegen.IsPrime: takes one base per round; the source's iteration count is the length of that sequence (a negative count gives no rounds). Bases are non-negative, as the draws in [2, n − 1] are.
- Primegen.GetRandom: the draw is a parameter; that the source's draw has exactly DrawLength(min, max) digits is not tied to it.
- Arith.ModPow: uses 1 % 1 = 0 for `ModPow(x, 0, 1)`; the model does not depend on older .NET versions that returned 1.
- Decimal: `BigInteger.Parse` is only modelled on strings of digits, the only strings it is given here.

## Findings

| source | as written | input that shows it | evidently intended | confidence | as-written member | corrected member |
|---|---|---|---|---|---|---|
| Primegen.cs:37-79 | `IsPrime` has no test for numbers below 2: 1 is odd, passes the quick scan, gives s = 0 and t = 0, and every round then passes, so 1 is accepted; an all-zero byte draw is forced odd to 1, so the search can record 1 as a prime | `IsPrime(1, k)` for any k; `GenLargePrimes` with byteSize 1 when the draw is a zero byte | numbers below 2 are rejected | high; not executed | Primegen.IsPrime | Primegen.IsPrimeFromTwo |
