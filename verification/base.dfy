/** Failure-carrying wrappers shared by the other modules. */
module Base {

  /** A value that may be absent, standing for a JavaScript value that may be null. */
  datatype Option<+T> = None | Some(value: T)

  /** The outcome of an operation that either produces a value or aborts with an error. */
  datatype Result<+T, +E> = Success(value: T) | Failure(error: E)
}
