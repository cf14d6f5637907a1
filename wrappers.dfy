/** Option and Result, used for "not found" and "fatal" outcomes in place of exit(1). */
module Wrappers {
  datatype Option<+T> = None | Some(value: T)

  datatype Result<+R, +E> = Success(value: R) | Failure(error: E)
}
