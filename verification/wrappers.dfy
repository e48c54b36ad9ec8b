/** Failure-carrying values used across the model: PHP's `null` / `false`
    returns become `None`, a thrown exception becomes `Err`. */
module Wrappers {

  datatype Option<+T> = None | Some(value: T)

  datatype Result<+T, +E> = Ok(value: T) | Err(error: E)
}
