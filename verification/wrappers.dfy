/** Optional values, standing for Python's `None` and for "nothing found". */
module Wrappers {

  datatype Option<+T> = None | Some(value: T)
}
