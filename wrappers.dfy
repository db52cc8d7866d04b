/** Optional values: a dictionary key that may be absent, a regex group that may not match. */
module Wrappers {

  datatype Option<+T> = None | Some(value: T) {

    /** `dict.get(key, default)` once the lookup has been made. */
    function GetOr(default: T): T {
      match this
      case Some(v) => v
      case None => default
    }
  }
}
