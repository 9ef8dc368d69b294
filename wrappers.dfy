/** Failure-compatible wrappers shared by the slug modules. */
module Wrappers {

  /** A value that may be absent (a Mongo field that is unset, a query with no match). */
  datatype Option<+T> = None | Some(value: T)

  /** The outcome of an operation that can fail with an error of type E. */
  datatype Result<+R, +E> = Success(value: R) | Failure(error: E)
}
