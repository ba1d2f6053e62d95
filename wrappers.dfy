/** Failure-compatible result types used by the hash map's queries. */
module Wrappers {

  /** An optional value: `None` plays the part of a list's end iterator. */
  datatype Option<+T> = None | Some(value: T)

  /** A value or the error that replaced it. */
  datatype Result<+T, +E> = Success(value: T) | Failure(error: E)
}
