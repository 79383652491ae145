/** Values that may be absent: Python's `None` next to a value. */
module Basics {

  /** `None` models Python's `None`; `Some(v)` a present value. */
  datatype Option<+T> = None | Some(value: T)
}
