/** The absent-or-present value used for a transaction's sender. */
module Wrappers {
  datatype Option<+T> = None | Some(value: T)
}
