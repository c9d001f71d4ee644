/** Optional values: `None` stands for JavaScript's `undefined`, `null` or `NaN`
    wherever the modelled code can produce one of them. */
module Wrappers {

  datatype Option<+T> = None | Some(value: T) {

    /** The carried value, or `default` when there is none (JavaScript's `x || default`
        once `x` has been reduced to a number). */
    function GetOr(default: T): T {
      match this
      case Some(v) => v
      case None => default
    }
  }
}
