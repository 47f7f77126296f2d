/** Option and Result, the failure-carrying values the model returns where
    the scripts return None, raise, or return a value. */
module Wrappers {

  datatype Option<+T> = None | Some(value: T)

  /** `Err` stands for a Python exception that escapes the function. */
  datatype Result<+T, +E> = Ok(value: T) | Err(error: E)
}
