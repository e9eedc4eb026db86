/** Failure-carrying values shared by every module of the model: Python raises
    and TypeScript `null` returns are modelled as `None` or `Err`. */
module Wrappers {

  datatype Option<+T> = None | Some(value: T)

  datatype Result<+T, +E> = Ok(value: T) | Err(error: E)
}
