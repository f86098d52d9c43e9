/** Python's `X | None` values. */
module Wrappers {
  datatype Option<+T> = None | Some(value: T)
}
