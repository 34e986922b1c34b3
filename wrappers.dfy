/** Optional values: Python's `None`/`False` results and values that may be absent. */
module Wrappers {

  datatype Option<T> = None | Some(value: T)
}
