/** Failure-carrying wrappers shared by the box framework and the decryption pipeline. */
module Results {

  /** A value that may be absent (a nil pointer, a failed optional step). */
  datatype Option<+T> = None | Some(value: T)

  /** The outcome of an operation that returns either a value or an error. */
  datatype Result<+T, +E> = Success(value: T) | Failure(error: E)
}
