/** Optional values and fallible results shared by every module of the model.

    `Option` stands for the places where the reader uses a null pointer, a
    NaN double, a `-1` index or a null tag; `Result` stands for a call that
    either returns a value or throws a C++ exception (the `Failure` message). */
module Wrappers {

  datatype Option<+T> = None | Some(value: T) {

    /** Returns the value in `Some`, or `default` for `None`. */
    function GetOr(default: T): T {
      match this
      case Some(v) => v
      case None => default
    }
  }

  datatype Result<+T, +E> = Success(value: T) | Failure(error: E)
}
