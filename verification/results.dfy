/** Option and Result values used for the error paths of the model. */
module Results {

  datatype Option<+T> = None | Some(value: T) {

    /** The value if present, otherwise `default` (Python's `dict.get(key, default)`). */
    function GetOr(default: T): T {
      match this
      case Some(v) => v
      case None => default
    }
  }

  datatype Result<+T, +E> = Success(value: T) | Failure(error: E)
}
