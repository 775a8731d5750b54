/** Option and Result, the two failure-carrying shapes the derive front end uses. */
module Wrappers {

  datatype Option<+T> = None | Some(value: T)

  /** `Err` stands for an early `bail!`: the caller gets the error and no value. */
  datatype Result<+T, +E> = Ok(value: T) | Err(error: E)
}
