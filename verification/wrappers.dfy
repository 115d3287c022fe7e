/** `Option` (a value or JavaScript's `undefined`) and `Result` (a value or an error), shared by every module of the model. */
module Wrappers {

  /** An optional value: `None` stands for JavaScript's `undefined` result. */
  datatype Option<+T> = None | Some(value: T) {

    /** The wrapped value, or `default` when there is none. */
    function GetOr(default: T): T {
      match this
      case Some(v) => v
      case None => default
    }
  }

  /** The outcome of an operation that can fail with an error value. */
  datatype Result<+R, +E> = Success(value: R) | Failure(error: E)
}
