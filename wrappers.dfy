/** Option and Result, the shapes every module uses for "no value" and for an
    error return in place of the C convention of an svn_error_t pointer. */
module Wrappers {

  datatype Option<+T> = None | Some(value: T) {
    function GetOr(default: T): T {
      match this
      case Some(v) => v
      case None => default
    }
  }

  datatype Result<+T, +E> = Success(value: T) | Failure(error: E)
}
