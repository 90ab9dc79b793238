/** Optional values and value-or-error results, as the rest of the model uses them. */
module Wrappers {

  /** An optional value. Where the model follows Go slices, `None` stands for the
      nil slice and `Some(s)` for a non-nil slice. */
  datatype Option<+T> = None | Some(value: T) {

    /** The wrapped value, or `default` when there is none. */
    function GetOr(default: T): T {
      match this
      case Some(v) => v
      case None => default
    }
  }

  /** Either a value or an error, in place of Go's `(value, error)` return pairs. */
  datatype Result<+T, +E> = Success(value: T) | Failure(error: E)
}
