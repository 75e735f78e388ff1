/** Failure-compatible wrappers used across the model: a JavaScript value that
    may be null/undefined becomes an `Option`, a call that may throw becomes a
    `Result`. */
module Results {

  datatype Option<+T> = None | Some(value: T)

  datatype Result<+T, +E> = Success(value: T) | Failure(error: E)
}
