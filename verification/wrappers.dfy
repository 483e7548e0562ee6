/** Option and Result, the failure-carrying datatypes the rest of the model
    returns instead of throwing. */
module Wrappers {

  /** A value that may be absent: `undefined` on the JavaScript side, or a
      path that names nothing on the filesystem. */
  datatype Option<+T> = None | Some(value: T)

  /** The outcome of an operation that can throw: the value it returns, or
      the error it raises. */
  datatype Result<+R, +E> = Success(value: R) | Failure(error: E)
}
