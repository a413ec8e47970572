/** Option and Result values used across the model in place of Go's nil
    results and (value, error) pairs. */
module Outcomes {

  datatype Option<+T> = None | Some(value: T)

  datatype Result<+R, +E> = Ok(value: R) | Err(error: E)
}
