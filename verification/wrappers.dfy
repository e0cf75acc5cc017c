/** Optional values, used where the display code may find nothing to act on. */
module Wrappers {

  datatype Option<+T> = None | Some(value: T)
}
