/** Optional values and stage outcomes shared by every stage of the pipeline. */
module Wrappers {

  /** A value that may be absent: a version lookup that misses, a from-import without a module. */
  datatype Option<+T> = None | Some(value: T) {

    /** The wrapped value, or `default` when there is none. */
    function GetOr(default: T): T {
      match this
      case Some(v) => v
      case None => default
    }
  }

  /** The outcome of a stage that can raise: either its value or the error it raised. */
  datatype Result<+R, +E> = Success(value: R) | Failure(error: E)
}
