/** Optional values: `None` stands for Python's `None` return (or a raised error). */
module Wrappers {
  datatype Option<+T> = None | Some(value: T)
}
