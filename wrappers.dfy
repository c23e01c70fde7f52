/** Option and Result values used for absent data and raised errors. */
module Wrappers {

  /** A value that may be absent (`undefined` in TypeScript, a failed read in Python). */
  datatype Option<+T> = None | Some(value: T)

  /** Either a computed value or the error the source raises instead. */
  datatype Result<+T, +E> = Ok(value: T) | Err(error: E)
}
