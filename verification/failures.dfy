/** Error taxonomy and the success/failure wrappers used by every fallible operation. */
module Failures {

  /** The distinct ways reconstruction can fail; each carries what the source puts in its message. */
  datatype Error =
    | InvalidBase(base: int)
    | InvalidCharacter(c: char)
    | DigitOutOfRange(c: char, base: int)
    | Singular
    | ThresholdTooSmall(k: int)
    | TooFewPoints(need: int, got: int)
    | DuplicateX

  /** Either a value or the error that stopped the computation. */
  datatype Result<+T> = Ok(value: T) | Err(error: Error)

  /** An optional value. */
  datatype Option<+T> = None | Some(value: T)
}
