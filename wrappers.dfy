/** Failure-carrying results shared by every module of the model. */
module Wrappers {

  datatype Option<+T> = None | Some(value: T)

  /** A thrown JavaScript/Python error is modelled as `Err` carrying the message. */
  datatype Result<+T> = Ok(value: T) | Err(message: string)
}
