/** Optional values: a prior file that may be missing, a table that may fail to build. */
module Wrappers {

  datatype Option<+T> = None | Some(value: T)

}
