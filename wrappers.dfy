/** Optional values, standing for Python's `None` where the source uses it as "no value". */
module Wrappers {

  datatype Option<+T> = None | Some(value: T)
}
