/** Failure-compatible wrappers shared by the model: an optional value and a
    success-or-error result. */
module Results {

  /** A value that may be absent (an unset storage key, a search that found nothing). */
  datatype Option<+T> = None | Some(value: T) {
    function GetOr(default: T): T {
      match this
      case Some(v) => v
      case None => default
    }
  }

  /** The outcome of an operation that can be refused. */
  datatype Result<+T, +E> = Success(value: T) | Failure(error: E)
}
