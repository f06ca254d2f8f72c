/** The absent-or-present cell value. */
module Wrappers {

  /** A table cell: `None` for a missing or NaN cell, `Some(v)` for a value. */
  datatype Option<T> = None | Some(value: T)
}
