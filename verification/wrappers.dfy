/** Option type used for the renderer's "no result" paths: a miss, a ray that does not
    scatter, a null material pointer, a random stream that ran dry. */
module Wrappers {

  datatype Option<+T> = None | Some(value: T) {

    /** Returns the value in Some, or `default` for None. */
    function GetOr(default: T): T {
      match this
      case Some(v) => v
      case None => default
    }
  }
}
