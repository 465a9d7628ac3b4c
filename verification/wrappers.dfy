/** The optional value used for the driver's `None` defaults. */
module Wrappers {

  /** `None` stands for Python's `None`; `Some(v)` for an argument that was passed. */
  datatype Option<+T> = None | Some(value: T)
}
