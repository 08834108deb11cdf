/** Option and Result: the model's stand-ins for C#'s null and for thrown exceptions. */
module Wrappers {

  /** `None` plays the part of a C# `null` reference. */
  datatype Option<+T> = None | Some(value: T)

  /** `Failure` plays the part of an exception that escapes to the caller. */
  datatype Result<+R, +E> = Success(value: R) | Failure(error: E)
}
