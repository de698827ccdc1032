/** Optional values: Python's `None` and the nullable columns of the record table. */
module Wrappers {

  datatype Option<+T> = None | Some(value: T)
}
