/** Option and Result, used for pandas' missing values (NA/NaN) and for the
    exceptions the scripts raise or catch. */
module Wrappers {

  datatype Option<+T> = None | Some(value: T)

  datatype Result<+R, +E> = Ok(value: R) | Err(error: E)
}
