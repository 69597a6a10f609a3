/** Option and Result values used for the tool's absent values and raised errors. */
module Wrappers {

  datatype Option<+T> = None | Some(value: T)

  /** `Err` stands for a Python exception the source raises at that point. */
  datatype Result<+T, +E> = Ok(value: T) | Err(error: E)
}
