/** Option and Result values used for the absent `__key` and for the
    exceptions and NaN results of the modelled JavaScript code. */
module Wrappers {

  datatype Option<+T> = None | Some(value: T)

  datatype Result<+T, +E> = Ok(value: T) | Err(error: E)
}
