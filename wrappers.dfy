/** Optional values, for the fields of a battery reading that may be absent. */
module Wrappers {

  datatype Option<+T> = None | Some(value: T)
}
