/** Python's `None`-or-value, as used for nullable columns and optional arguments. */
module Wrappers {

  datatype Option<+T> = None | Some(value: T)
}
