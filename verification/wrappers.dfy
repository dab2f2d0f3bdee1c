/** Optional values, used for values the browser may report as `null`. */
module Wrappers {

  datatype Option<+T> = None | Some(value: T)
}
