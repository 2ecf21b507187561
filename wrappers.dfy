/** Optional values, standing for a Python value that may be `None` or absent. */
module Wrappers {

  datatype Option<T> = None | Some(value: T)
}
