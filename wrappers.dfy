/** Failure-compatible wrappers shared by every tool module. */
module Wrappers {

  /** A value that may be absent: JavaScript's `null`/`undefined` beside a value. */
  datatype Option<+T> = None | Some(value: T) {
    /** `a || b` on an object-or-null value. */
    function OrElse(other: Option<T>): Option<T> {
      if Some? then this else other
    }
  }

  /** The outcome of a computation that may throw: the thrown error's message. */
  datatype Result<+T> = Ok(value: T) | Err(message: string)
}
