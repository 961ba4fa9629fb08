/** Failure-carrying datatypes shared by every module of the model.
    - Option<T>: a value that may be absent (a null reference, a missing header).
    - Optional<T>: Discord's "field may be left out of the JSON" wrapper, kept
      apart from Option because the source distinguishes the two.
    - Result<T, E>: the outcome of an operation that throws in the source.
    It also holds the byte type used by the encoders. */
module Wrappers {

  /** An unsigned 8-bit value (C# `byte`). */
  type byte = x: int | 0 <= x < 256

  datatype Option<+T> = None | Some(value: T) {
    function GetOr(default: T): T {
      match this
      case Some(v) => v
      case None => default
    }
  }

  /** A JSON field that is either present with a value or left out. */
  datatype Optional<+T> = Undefined | Defined(value: T)

  datatype Result<+T, +E> = Success(value: T) | Failure(error: E) {
    predicate IsFailure() {
      Failure?
    }

    function PropagateFailure<U>(): Result<U, E>
      requires Failure?
    {
      Failure(error)
    }

    function Extract(): T
      requires Success?
    {
      value
    }
  }
}
