/** Optional values: JavaScript's `null`/`undefined` on the modelled paths. */
module Wrappers {

  datatype Option<+T> = None | Some(value: T)
}
