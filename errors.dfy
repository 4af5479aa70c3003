/** The exceptions raised by the liquid-handling core, and the types that carry them. */
module Errors {

  /** The Python exception classes the core raises. TransferError subclasses ValueError. */
  datatype Error =
    | TransferError      // empty source, insufficient volume, capacity exceeded
    | ValueError         // no unique well, unknown row name, unknown direction
    | KeyError           // a dict lookup of a missing key
    | IndexError         // a row number below the reach of negative string indexing
    | AttributeError     // a well name that does not match letters-then-digits
    | TypeError          // sorting keys that cannot be compared
    | ZeroDivisionError  // a division by a zero divisor
  {
    /** True when `except ValueError` catches this error. */
    predicate IsValueError() {
      this == TransferError || this == ValueError
    }
  }

  datatype Option<+T> = None | Some(value: T)

  /** A value, or the exception raised instead of returning one. */
  datatype Result<+T> = Success(value: T) | Failure(error: Error) {
    predicate IsFailure() {
      Failure?
    }

    function PropagateFailure<U>(): Result<U>
      requires Failure?
    {
      Failure(error)
    }

    function Extract(): T
      requires Success?
    {
      value
    }
  }

  /** The outcome of an operation that returns nothing: it completes or raises. */
  datatype Outcome = Ok | Err(error: Error) {
    predicate IsFailure() {
      Err?
    }

    function PropagateFailure(): Outcome
      requires Err?
    {
      this
    }
  }
}
