/** What a stream operation can fail with, and the result types that carry it.

    The runtime reports failures by throwing: an `EOFError`, an
    `UnexpectedDataError`, a plain `Error` for an over-wide bit read, a
    string for a missing terminator, a bad rotate group or a non-positive
    `mod` divisor, and the engine's own `RangeError` when a typed-array view
    is asked for a negative length or a start beyond the buffer.  Each
    becomes one variant here, carrying the payload the thrown value has. */
module StreamErrors {

  datatype Error =
    | EOF(bytesReq: int, bytesAvail: int)
    | UnexpectedData(expected: seq<bv8>, actual: seq<bv8>)
    | MissingTerminator(terminator: bv8)
    | BitWidthExceeded(n: nat)
    | UnsupportedGroup(groupSize: int)
    | NonPositiveDivisor(divisor: int)
    | RangeError

  /** A value, or the error the source would have thrown instead. */
  datatype Result<+T> = Success(value: T) | Failure(error: Error)
  {
    predicate IsFailure() {
      Failure?
    }

    function PropagateFailure<U>(): Result<U>
      requires Failure?
    {
      Failure(error)
    }

    function Extract(): T
      requires Success?
    {
      value
    }
  }

  /** A check that either passes or throws. */
  datatype Outcome = Pass | Fail(error: Error)
  {
    predicate IsFailure() {
      Fail?
    }

    function PropagateFailure<U>(): Result<U>
      requires Fail?
    {
      Failure(error)
    }
  }

  /** A value that may be JavaScript's `undefined`. */
  datatype Option<+T> = None | Some(value: T)
}
