/** JavaScript's `undefined`-or-value, as a datatype. */
module Wrappers {
  datatype Option<+T> = None | Some(value: T)
}
