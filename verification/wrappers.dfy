/** Optional values: the model's stand-in for JavaScript's `undefined`, `null`
    and the empty string where the source tests a value for truthiness. */
module Wrappers {

  datatype Option<+T> = None | Some(value: T)
}
