/** The absent-or-present value that stands for `null` and `undefined`. */
module Wrappers {
  datatype Option<+T> = None | Some(value: T)
}
