/** Shared vocabulary: bytes and the failure-carrying results that stand in
    for the exceptions of the modelled code. */
module Base {

  /** One octet. */
  type uint8 = x: int | 0 <= x < 256

  /** A byte string, as Python's `bytes`. */
  type Bytes = seq<uint8>

  datatype Option<+T> = None | Some(value: T)

  /** A value, or the error the modelled code would have raised. */
  datatype Result<+T, +E> = Success(value: T) | Failure(error: E) {

    predicate IsFailure() {
      Failure?
    }

    function PropagateFailure<U>(): Result<U, E>
      requires Failure?
    {
      Failure(error)
    }

    function Extract(): T
      requires Success?
    {
      value
    }
  }

  /** The end state of a computation whose output was already emitted. */
  datatype Outcome<+E> = Pass | Fail(error: E)
}
