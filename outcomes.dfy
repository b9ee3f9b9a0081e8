/** Option and Result, the shapes Python's `None` returns and raised exceptions take in this model. */
module Outcomes {

  datatype Option<+T> = None | Some(value: T)

  datatype Result<+T, +E> = Ok(value: T) | Err(error: E)
}
