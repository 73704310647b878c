/** Optional values: the model's counterpart of Python's `None`. */
module Wrappers {

  /** Either nothing or exactly one value. */
  datatype Option<+T> = None | Some(value: T)
}
