/** Optional values and success/failure results shared by the other modules. */
module Results {

  /** A value that may be absent: Python's `Optional`, JavaScript's `null`. */
  datatype Option<+T> = None | Some(value: T)

  /** The outcome of an operation that can fail with an error value. */
  datatype Result<+T, +E> = Success(value: T) | Failure(error: E)
}
