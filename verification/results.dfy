/** A failure-compatible result type standing in for Python's exceptions:
    an operation either returns its value or raises an error of kind `E`. */
module Results {

  /** The Python exceptions the modelled code raises. */
  datatype Error = ValueError | TypeError | KeyError | IndexError

  datatype Result<+T, +E> = Success(value: T) | Failure(error: E) {

    predicate IsFailure() {
      Failure?
    }

    function PropagateFailure<U>(): Result<U, E>
      requires Failure?
    {
      Failure(error)
    }

    function Extract(): T
      requires Success?
    {
      value
    }
  }
}
