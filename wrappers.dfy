/** The optional-value datatype shared by the other modules. */
module Wrappers {

  /** A value that may be absent; `None` stands for a C NULL pointer. */
  datatype Option<+T> = None | Some(value: T)
}
