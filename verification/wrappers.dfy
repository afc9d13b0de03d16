/** Optional values, used wherever a pattern may fail to match or a parse may fail. */
module Wrappers {

  datatype Option<+T> = None | Some(value: T)
}
