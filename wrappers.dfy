/** Optional values: `None` stands for the host's `null` / `undefined`. */
module Wrappers {
  datatype Option<+T> = None | Some(value: T)
}
