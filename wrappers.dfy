/** Failure-carrying results shared by the modules of this model. */
module Wrappers {

  /** The outcome of an operation that either yields a value or fails with an error. */
  datatype Result<+T, +E> = Success(value: T) | Failure(error: E)
}
