/** Option and Result, standing in for C# null references and thrown exceptions. */
module Wrappers {

  /** `None` plays the role of a null reference. */
  datatype Option<+T> = None | Some(value: T)

  /** `Failure` carries the exception an operation throws instead of returning. */
  datatype Result<+R, +E> = Success(value: R) | Failure(error: E)
}
