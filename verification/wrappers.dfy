/** Optional values, used for a Java reference that may be null and for a
    fault that may or may not happen. */
module Wrappers {

  datatype Option<+T> = None | Some(value: T)
}
