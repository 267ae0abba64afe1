/** Optional values (SQL NULL) and results with an error message (Go's `error` return). */
module Wrappers {

  /** `None` stands for SQL NULL wherever a column of the catalog may be NULL. */
  datatype Option<+T> = None | Some(value: T)

  /** A Go `(value, error)` pair: exactly one of the two is meaningful. */
  datatype Result<+T, +E> = Success(value: T) | Failure(error: E)
}
