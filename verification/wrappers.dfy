/** Failure-carrying datatypes used by the request handlers of the model. */
module Wrappers {

  /** A value that may be absent: a missing JSON key, a missing upload, a missing directory. */
  datatype Option<+T> = None | Some(value: T) {

    /** The value, or `default` when absent (Python's `dict.get(key, default)`). */
    function GetOr(default: T): T {
      match this
      case Some(v) => v
      case None => default
    }
  }

  /** The outcome of an external step that either succeeds or fails with a message. */
  datatype Outcome<+E> = Pass | Fail(error: E)

  /** A handler's answer: a success payload or an error payload. */
  datatype Result<+R, +E> = Ok(value: R) | Err(error: E)
}
