/** Optional values: a frame that may or may not issue a portion, a ray that may or may not hit. */
module Wrappers {
  datatype Option<+T> = None | Some(value: T)
}
