/** Option and Result values used in place of the source's `null`, `NaN` and
    error-message strings. */
module Wrappers {

  datatype Option<+T> = None | Some(value: T)

  /** The reasons a classical transform refuses its input. */
  datatype CipherError =
    | InvalidKeyFormat          // an Affine coefficient is missing or not a number
    | NonInvertibleCoefficient  // the Affine `a` fails the inverse-sentinel check
    | OddLengthCiphertext       // Playfair decryption of an odd number of letters
    | InvalidKeyLength          // a Hill key that is not exactly nine numbers
    | NonInvertibleMatrix       // the Hill determinant fails the inverse-sentinel check

  /** Either the produced text or one error, never a partial output. */
  datatype Result<+R> = Ok(value: R) | Err(error: CipherError)
}
