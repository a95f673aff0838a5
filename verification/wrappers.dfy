/** Wrappers shared by every module of the model. */
module Wrappers {

  /** A value that may be absent, as `undefined` is in the preprocessor. */
  datatype Option<+T> = None | Some(value: T)

  /** Either a value or the error the preprocessor would throw. */
  datatype Result<+T, +E> = Ok(value: T) | Err(error: E)
}
