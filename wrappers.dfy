/** Option and outcome datatypes shared by the model. */
module Wrappers {

  /** A value that may be absent: `None` stands for JavaScript's null/undefined
      and for a file that does not exist. */
  datatype Option<+T> = None | Some(value: T) {
    /** The value, or `default` when absent. */
    function GetOr(default: T): T {
      match this
      case Some(v) => v
      case None => default
    }
  }

  /** Success without a value, or a failure. */
  datatype Outcome<+E> = Pass | Fail(error: E)

  /** A value or a failure. */
  datatype Result<+R, +E> = Success(value: R) | Failure(error: E)
}
