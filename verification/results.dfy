/** Optional values and success-or-error results, used wherever the source
    dereferences something a lookup may not have found. */
module Results {

  /** The outcome of a lookup: the value found, or nothing. */
  datatype Option<+T> = None | Some(value: T)

  /** A computed value, or the error that stopped the computation.
      Usable with `:-`. */
  datatype Result<+T, +E> = Success(value: T) | Failure(error: E) {

    predicate IsFailure() {
      Failure?
    }

    function PropagateFailure<U>(): Result<U, E>
      requires Failure?
    {
      Failure(error)
    }

    function Extract(): T
      requires Success?
    {
      value
    }
  }
}
