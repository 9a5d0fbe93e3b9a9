/** Option and Result values shared by the other modules. */
module Wrappers {

  /** A value that may be absent; stands for JavaScript's `null`. */
  datatype Option<+T> = None | Some(value: T)

  /** The outcome of an operation that either produces a value or fails with an error message. */
  datatype Result<+T> = Ok(value: T) | Failed(message: string)
}
