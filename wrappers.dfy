/** Optional values: `None` stands for the `null` a JavaScript cell or result may hold. */
module Wrappers {
  datatype Option<+T> = None | Some(value: T)
}
