/** Failure-carrying datatypes shared by every module of the model. */
module Wrappers {

  /** A value that may be absent. `None` also stands for JavaScript's `NaN`
      wherever a number is the result of `parseInt`. */
  datatype Option<+T> = None | Some(value: T)

  /** The outcome of an operation that either produces a value or raises one
      of the error kinds of its module. */
  datatype Result<+T, +E> = Ok(value: T) | Err(error: E)
}
