/** Failure-carrying return types used across the crawler model. */
module Wrappers {

  /** A value that may be absent: an unreadable file has no content. */
  datatype Option<+T> = None | Some(value: T)

  /** The outcome of an operation that can throw in the source. */
  datatype Result<+R, +E> = Success(value: R) | Failure(error: E)
}
