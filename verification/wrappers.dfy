/** Failure-compatible wrappers used for the formatter's error path and for parsing. */
module Wrappers {

  datatype Option<+T> = None | Some(value: T)

  /** Either a value or the error the Java code would have thrown. */
  datatype Result<+R, +E> = Success(value: R) | Failure(error: E)
}
