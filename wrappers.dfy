/** The optional result of a cache read: `None` is Go's `(nil, false)`,
  * `Some(v)` is `(v, true)`. */
module Wrappers {

  datatype Option<+T> = None | Some(value: T)
}
