/** Python's `None`-or-value, as used for the watched folder and the `run` argument. */
module Wrappers {

  datatype Option<+T> = None | Some(value: T)
}
