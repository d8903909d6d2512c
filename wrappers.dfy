/** Optional values, used where the watcher's Python code would raise and catch. */
module Wrappers {
  datatype Option<+T> = None | Some(value: T)
}
