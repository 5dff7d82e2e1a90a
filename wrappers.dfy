/** Optional values, standing in for Python's `None` and for a failed parse. */
module Wrappers {

  datatype Option<+T> = None | Some(value: T)
}
