/** Optional values and results with an error, the two shapes the Go code
    expresses with nil pointers and `(value, error)` pairs. */
module Wrappers {

  /** A nullable value: a Go `*T` pointer or a nullable SQL column. */
  datatype Option<+T> = None | Some(value: T) {
    function GetOr(default: T): T {
      match this
      case Some(v) => v
      case None => default
    }
  }

  /** A Go `(value, error)` return where exactly one of the two is meaningful. */
  datatype Result<+T, +E> = Ok(value: T) | Err(error: E)
}
