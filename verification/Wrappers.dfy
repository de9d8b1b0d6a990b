/** Failure-compatible Option and Result datatypes used throughout the model:
    `Option` stands for a C# nullable (`T?`, `ulong?`, `string?`), and `Result`
    for a call that either returns a value or throws. */
module Wrappers {

  datatype Option<+T> = None | Some(value: T)

  datatype Result<+R, +E> = Success(value: R) | Failure(error: E)
}
