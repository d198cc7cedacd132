/** Failure-carrying result types shared by the puzzle models. */
module Wrappers {

  /** A value that may be missing; `None` stands where Python raises. */
  datatype Option<+T> = None | Some(value: T)

  /** A value or an error describing why there is none. */
  datatype Result<+T, +E> = Success(value: T) | Failure(error: E)
}
