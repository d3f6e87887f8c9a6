/** Optional values: an absent field of a partially parsed record, a missing workspace folder. */
module Wrappers {

  datatype Option<+T> = None | Some(value: T)
}
