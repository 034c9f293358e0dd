/** Optional values, used for the "largest REAL" sentinels and for empty slots. */
module Wrappers {

  datatype Option<+T> = None | Some(value: T)

}
