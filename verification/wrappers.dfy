/** Failure-carrying result types shared by the library operations. */
module Wrappers {

  /** A value that may be missing: an empty input line, a lookup that found nothing. */
  datatype Option<+T> = None | Some(value: T)

  /** The outcome of an operation: the new value, or the reason it was refused. */
  datatype Result<+T, +E> = Success(value: T) | Failure(error: E)
}
