/** Option and Result values, used wherever the PHP code returns a value or a failure (false, WP_Error). */
module Wrappers {

  datatype Option<+T> = None | Some(value: T)

  datatype Result<+T, +E> = Ok(value: T) | Err(error: E)
}
