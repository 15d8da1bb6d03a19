/** The Option and Result datatypes shared by the modules. */
module Results {

  /** A value that may be absent; models Python's `None` return. */
  datatype Option<+T> = None | Some(value: T)

  /** The outcome of an operation that either returns a value or raises. */
  datatype Result<+T, +E> = Success(value: T) | Failure(error: E)
}
