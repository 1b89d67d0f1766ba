/** The two outcome types the model uses for values that may be missing and for error returns. */
module Wrappers {
  datatype Option<+T> = None | Some(value: T)

  datatype Result<+T, +E> = Ok(value: T) | Err(error: E)

  /** How a round trip to a server can end; a call whose reply is lost has still been carried out. */
  datatype Fault = Answered | RequestLost | ReplyLost
}
