/** Option and Result, the two failure-carrying shapes the rest of the model uses. */
module Wrappers {

  /** A value that may be absent: JavaScript's `undefined`/`null` beside a present value. */
  datatype Option<+T> = None | Some(value: T)

  /** The outcome of a step that may throw: the value it returns, or what made it throw. */
  datatype Result<+T, +E> = Ok(value: T) | Err(error: E)
}
