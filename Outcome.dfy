/** The exceptions the library raises, and the shapes an operation that may
    raise one returns: a `Result` for operations that throw, an `Option` for
    the `bool TryX(..., out value)` pattern. */
module Outcome {

  /** The .NET exceptions the core can raise. */
  datatype Error =
    | Overflow          // System.OverflowException
    | DivideByZero      // System.DivideByZeroException
    | ArgumentError     // System.ArgumentException (an undefined MidpointRounding value)
    | InvalidOperation  // System.InvalidOperationException (a scale outside the supported range)
    | IndexOutOfRange   // System.IndexOutOfRangeException
    | ArgumentOutOfRange  // System.ArgumentOutOfRangeException (a Span slice of negative or excessive length)

  datatype Result<+T> = Ok(value: T) | Err(error: Error)

  datatype Option<+T> = None | Some(value: T)
}
