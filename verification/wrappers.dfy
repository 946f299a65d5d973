/** Python's `None`-or-value, used for `dict.get` results and optional arguments. */
module Wrappers {
  datatype Option<+T> = None | Some(value: T)
}
