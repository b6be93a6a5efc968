module Wrappers {

  /** An optional value: Python's `None` beside a present value. */
  datatype Option<+T> = None | Some(value: T)
}
