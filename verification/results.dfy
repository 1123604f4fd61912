/** The model's stand-ins for Python's `None` and for raising a `ValidationError`. */
module Results {

  /** A request field that was sent, or was not. */
  datatype Option<+T> = None | Some(value: T)

  /** A step that yields a value or rejects the request with an error. The
      three members let `:-` pass a rejection on unchanged. */
  datatype Result<+R, +E> = Success(value: R) | Failure(error: E) {

    predicate IsFailure() {
      Failure?
    }

    function PropagateFailure<U>(): Result<U, E>
      requires Failure?
    {
      Failure(error)
    }

    function Extract(): R
      requires Success?
    {
      value
    }
  }
}
