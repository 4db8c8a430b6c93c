/** Option and Result datatypes shared by the codec and the registry. */
module Wrappers {

  /** A value that may be absent: JavaScript's `undefined` result of an optional lookup. */
  datatype Option<+T> = None | Some(value: T)

  /** The outcome of an operation that may throw. */
  datatype Result<+T, +E> = Ok(value: T) | Err(error: E)
}
