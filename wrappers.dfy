/** Option and Result datatypes shared by the other modules. */
module Wrappers {

  /** A value that JavaScript may leave `undefined`. */
  datatype Option<+T> = None | Some(value: T)

  /** The outcome of a step that either produces a value or stops the run
      with the message that `err` would print before exiting. */
  datatype Result<+T, +E> = Success(value: T) | Failure(error: E)
}
