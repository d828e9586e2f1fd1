/** Failure-carrying result types shared by the control plane and the kernel model. */
module Wrappers {

  datatype Option<+T> = None | Some(value: T) {
    function GetOr(default: T): T {
      match this
      case Some(v) => v
      case None => default
    }
  }

  /** The value of a fallible step, or the error it stopped with. */
  datatype Result<+R, +E> = Success(value: R) | Failure(error: E)

  /** A fallible step that produces no value (Rust's `Result<()>`). */
  datatype Outcome<+E> = Pass | Fail(error: E)
}
