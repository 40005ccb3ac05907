/** Failure-compatible result types shared by every module of the model. */
module Wrappers {

  /** A value that may be absent: the model of a C# reference that may be null. */
  datatype Option<+T> = None | Some(value: T)

  /** The outcome of an operation that the source lets throw an exception. */
  datatype Result<+T, +E> = Ok(value: T) | Err(error: E)
}
