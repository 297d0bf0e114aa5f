/** Option and Result: the model's stand-ins for pandas nulls (NaN, NaT, None)
    and for Python exceptions that abort a stage. */
module Wrappers {

  datatype Option<+T> = None | Some(value: T) {
    function GetOr(default: T): T {
      match this
      case Some(v) => v
      case None => default
    }
  }

  datatype Result<+T, +E> = Ok(value: T) | Err(error: E)
}
