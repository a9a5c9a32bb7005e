/** Outcomes of operations that throw in the original library. */
module Results {

  /** The exceptions the modelled code can raise. */
  datatype Error =
    | ModOperandSigns   // ProperBigIntModNegPos called with a >= 0 or b <= 0
    | NegativeExponent  // BigInteger.ModPow with a negative exponent
    | DivideByZero      // BigInteger.ModPow with modulus 0
    | Format            // BigInteger.Parse of a string that is not a number
    | NegativeLength    // an array created with a negative length
    | InvalidKeyPairType  // a stored key whose tag is neither "public" nor "private"
    | KeypairCheck      // the generated keys did not decrypt their encryption of 2 to 2

  /** Either the value an operation returns or the exception it throws. */
  datatype Outcome<+T> = Ok(value: T) | Fail(error: Error)
}
