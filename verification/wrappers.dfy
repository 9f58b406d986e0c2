/** Optional values, for results the driver reports as "nothing". */
module Wrappers {

  datatype Option<+T> = None | Some(value: T)
}
