/** Optional values and results with an error, as the model's handlers use them. */
module Wrappers {

  /** A value that may be absent: a request field that was not sent, a lookup that found nothing. */
  datatype Option<+T> = None | Some(value: T)

  /** A validated value or the reason it was refused. */
  datatype Result<+T, +E> = Ok(value: T) | Err(error: E)
}
