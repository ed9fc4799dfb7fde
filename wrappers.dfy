/** Option and Result types used by the rest of the model. */
module Wrappers {

  /** A value that may be missing: a failed parse, a server that did not answer. */
  datatype Option<+T> = None | Some(value: T)

  /** The outcome of an operation that can fail with an error of type `E`. */
  datatype Result<+R, +E> = Success(value: R) | Failure(error: E)
}
