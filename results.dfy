/** Failure-compatible wrappers used for the source's `None` values and raised exceptions. */
module Results {

  /** A value that may be absent (Python's `None`). */
  datatype Option<+T> = None | Some(value: T)

  /** The normal result of an operation, or the error the Python code would raise. */
  datatype Result<+T, +E> = Success(value: T) | Failure(error: E)
}
