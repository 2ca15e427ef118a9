/** Optional values, the model's stand-in for Python's None and C++'s "not found". */
module Wrappers {

  datatype Option<+T> = None | Some(value: T)

}
