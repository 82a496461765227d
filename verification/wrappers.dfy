/** Optional values, used where the store answers "no matching document". */
module Wrappers {

  datatype Option<+T> = None | Some(value: T)
}
