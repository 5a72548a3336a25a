/** A value that may be absent: JavaScript's `undefined` in the router's results. */
module Wrappers {
  datatype Option<+T> = None | Some(value: T)
}
