/** Failure-compatible wrappers used throughout the model: `Option` for Python's
    `None`-or-value returns and `Result` for an operation that either returns a
    value or raises an exception. */
module Results {

  datatype Option<+T> = None | Some(value: T)

  /** `Failure(e)` stands for "the operation raised `e`". */
  datatype Result<+T, +E> = Success(value: T) | Failure(error: E) {

    predicate IsFailure() {
      Failure?
    }

    function PropagateFailure<U>(): Result<U, E>
      requires Failure?
    {
      Failure(error)
    }

    function Extract(): T
      requires Success?
    {
      value
    }
  }
}
