/** The optional values and outcomes shared by the call-graph model. */
module Wrappers {

  /** A value that may be absent (nil in the source). */
  datatype Option<+T> = None | Some(value: T)

  /** The outcome of an operation that can stop with an error (a panic in the source). */
  datatype Result<+T, +E> = Success(value: T) | Failure(error: E)
}
