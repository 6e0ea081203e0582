/** Failure-compatible result types shared by the modules of this project. */
module Wrappers {

  /** A value that may be absent: Swift's `Optional`. */
  datatype Option<+T> = None | Some(value: T)

  /** Either a value or an error describing why there is none. */
  datatype Result<+R, +E> = Success(value: R) | Failure(error: E)
}
