/** Python's `None`-or-value, as used for optional arguments and `dict.get`. */
module Wrappers {

  datatype Option<+T> = None | Some(value: T)
}
