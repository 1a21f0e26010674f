/** Option and Result, the failure-carrying datatypes the rest of the model uses
    for Python exceptions and JavaScript `undefined`. */
module Wrappers {

  datatype Option<+T> = None | Some(value: T)

  datatype Result<+R, +E> = Ok(value: R) | Err(error: E)
}
