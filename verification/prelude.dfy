/**
  Small shared vocabulary: bytes, and the two failure-compatible wrappers
  the rest of the model uses in place of Python's exceptions and `None`.
 */
module Prelude {

  /** An octet, as produced by `bytes` in Python. */
  type byte = b: int | 0 <= b < 256

  /** A value that may be absent: `None` stands for a Python exception
      (or a missing key) at the point where the value was needed. */
  datatype Option<+T> = None | Some(value: T) {

    predicate IsFailure() {
      None?
    }

    function PropagateFailure<U>(): Option<U>
      requires None?
    {
      None
    }

    function Extract(): T
      requires Some?
    {
      value
    }
  }

  /** A value or the reason it could not be computed. */
  datatype Result<+T, +E> = Success(value: T) | Failure(error: E) {

    predicate IsFailure() {
      Failure?
    }

    function PropagateFailure<U>(): Result<U, E>
      requires Failure?
    {
      Failure(error)
    }

    function Extract(): T
      requires Success?
    {
      value
    }
  }
}
