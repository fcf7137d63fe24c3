/** Failure-carrying datatypes shared by the other modules. */
module Wrappers {

  /** A value that may be absent: a missing header, a lookup that found nothing. */
  datatype Option<+T> = None | Some(value: T)

  /** The outcome of an operation that can fail with a typed error. */
  datatype Result<+R, +E> = Success(value: R) | Failure(error: E)
}
