/** Python's `None`-or-value and the error path of calls that raise. */
module Opt {
  datatype Option<+T> = None | Some(value: T)
}
