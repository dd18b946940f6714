/** Optional values, shared by the modules of the project. */
module Wrappers {
  datatype Option<+T> = None | Some(value: T)
}
