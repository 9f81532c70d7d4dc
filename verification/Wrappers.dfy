/** Outcomes of operations that may raise an error or return SQL NULL. */
module Wrappers {
  datatype Option<+T> = None | Some(value: T)

  datatype Result<+T> = Ok(value: T) | Error
}
