/** Optional values: the model's rendering of TypeScript's optional properties,
    `null` results and exceptions that carry no payload. */
module Wrappers {

  datatype Option<+T> = None | Some(value: T) {

    /** The value, or `default` when absent. */
    function GetOr(default: T): T {
      match this
      case Some(v) => v
      case None => default
    }
  }
}
