/** Optional values, used wherever the source returns a "not found" or
    "undefined" sentinel, or throws on a bad input. */
module Wrappers {

  datatype Option<+T> = None | Some(value: T)

  /** The outcome of a constructor or call that may throw a runtime error
      carrying a message. */
  datatype Result<+T> = Ok(value: T) | Err(message: string)
}
