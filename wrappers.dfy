/** Optional values and the outcome of an awaited collaborator call. */
module Wrappers {

  /** A field that may be absent (`undefined` or `null` in the view state). */
  datatype Option<+T> = None | Some(value: T) {

    /** The value, or `default` when absent. */
    function GetOr(default: T): T {
      match this
      case Some(v) => v
      case None => default
    }
  }

  /** An awaited call that either resolves to a value or rejects. The rejection reason is
      only logged by the callers, so it carries no payload. */
  datatype Result<+T> = Success(value: T) | Failure
}
