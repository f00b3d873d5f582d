/** Option and Result, the two failure-carrying values the model uses.
    `None` also stands for JavaScript's `undefined` where a value may be missing. */
module Wrappers {

  datatype Option<+T> = None | Some(value: T)

  datatype Result<+R, +E> = Success(value: R) | Failure(error: E)
}
