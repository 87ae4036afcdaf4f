/** Optional values, used for JavaScript results that may be NaN or undefined. */
module Wrappers {

  datatype Option<+T> = None | Some(value: T)

  /** The outcome of an operation that may throw: a value, or the thrown error's message. */
  datatype Result<+T> = Ok(value: T) | Err(message: string)
}
