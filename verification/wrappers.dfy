/** Optional values, standing in for JavaScript's `null`
    and `undefined` where the modelled code returns or accepts them. */
module Wrappers {

  datatype Option<+T> = None | Some(value: T) {

    /** The held value, or `fallback` when there is none, as a JavaScript
        default parameter replaces an argument left `undefined`. */
    function GetOr(fallback: T): T {
      if Some? then value else fallback
    }
  }
}
