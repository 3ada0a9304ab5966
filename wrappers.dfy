/** Option and Result, standing in for C#'s null references and thrown exceptions. */
module Wrappers {

  /** `None` plays the part of a C# `null` reference. */
  datatype Option<+T> = None | Some(value: T)

  /** `Err` carries the exception a .NET call would have thrown. */
  datatype Result<+T, +E> = Ok(value: T) | Err(error: E)
}
