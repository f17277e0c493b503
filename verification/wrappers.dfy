/** Optional values: a parse that may fail, a search that may miss. */
module Wrappers {

  datatype Option<+T> = None | Some(value: T)
}
