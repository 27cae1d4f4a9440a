/** Small failure-compatible wrappers shared by the whole model. */
module Wrappers {

  /** A value that may be absent: JavaScript's `undefined` or `null` result. */
  datatype Option<+T> = None | Some(value: T)

  /**
   * The result of a call that may throw. `Thrown(message)` is an exception
   * carrying the error's `message`; nothing in this model catches one.
   */
  datatype Result<+T> = Ok(value: T) | Thrown(message: string)

  /** The result of a call that returns nothing but may throw. */
  datatype Outcome = Done | Failed(message: string)
}
