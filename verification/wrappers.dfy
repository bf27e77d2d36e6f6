/** Optional values and success/failure results, standing in for the nullable
    values and thrown exceptions of the modelled C# code. */
module Wrappers {

  datatype Option<+T> = None | Some(value: T) {

    /** The value if present, otherwise `default`. */
    function GetOr(default: T): T {
      match this
      case Some(v) => v
      case None => default
    }
  }

  /** Either a value or the error that the C# code would have thrown. */
  datatype Result<+R, +E> = Success(value: R) | Failure(error: E)
}
