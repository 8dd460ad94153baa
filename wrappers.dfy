/** Error kinds the arithmetic can raise, and a failure-compatible result type
    standing for "returns a value or throws an ArithmeticException". */
module Wrappers {

  datatype Error =
    | DivisionByZero   // a division by a zero divisor
    | InexactResult    // rounding mode UNNECESSARY on an inexact quotient
    | PrecisionLoss    // narrowing retype requested without a rounding mode

  datatype Result<+T> = Ok(value: T) | Err(error: Error) {

    predicate IsFailure() {
      Err?
    }

    function PropagateFailure<U>(): Result<U>
      requires Err?
    {
      Err(error)
    }

    function Extract(): T
      requires Ok?
    {
      value
    }
  }

  /** A value that may be absent (a Java reference that may be null). */
  datatype Option<+T> = None | Some(value: T)
}
