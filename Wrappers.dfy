/** Option and Result, the two failure-carrying datatypes the rest of the model uses. */
module Wrappers {

  /** `None` stands for JavaScript's `undefined` (or the empty sort key `''`). */
  datatype Option<+T> = None | Some(value: T)

  /** The outcome of a promise: resolved with a value, or rejected with a cause. */
  datatype Result<+T, +E> = Success(value: T) | Failure(error: E)
}
