/** Optional values: the model's rendering of `undefined`, `null` and absent
    fields in the storefront's TypeScript. */
module Wrappers {

  datatype Option<+T> = None | Some(value: T) {

    /** The wrapped value, or `default` when there is none. */
    function GetOr(default: T): T {
      match this
      case Some(v) => v
      case None => default
    }
  }
}
