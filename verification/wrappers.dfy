/** Optional values: the model's stand-in for JavaScript's `undefined`/`null`/`NaN`
    results and for calls that threw. */
module Wrappers {

  datatype Option<+T> = None | Some(value: T) {

    /** The carried value, or `fallback` when there is none. */
    function GetOr(fallback: T): T {
      if Some? then value else fallback
    }
  }
}
