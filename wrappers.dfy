/** Optional values and the success-or-error outcome of a server mutation. */
module Wrappers {

  /** `undefined` / `null` versus a present value. */
  datatype Option<+T> = None | Some(value: T)

  /** A mutation either returns a value or throws `new Error(msg)`. */
  datatype Result<+T> = Ok(value: T) | Err(msg: string)

  /** The unit value, for mutations that return nothing. */
  datatype Unit = Unit
}
