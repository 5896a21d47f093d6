/** Optional values: a slot of the ring buffer holds a pointer that may be nil. */
module Wrappers {

  datatype Option<+T> = None | Some(value: T)
}
