/** JavaScript's `null`-or-value, as an option. */
module Wrappers {
  datatype Option<T> = None | Some(value: T)
}
