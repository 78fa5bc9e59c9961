/** The option type shared by the other modules. */
module Wrappers {

  /** A value that may be absent: the model's stand-in for Python's `None`. */
  datatype Option<+T> = None | Some(value: T)
}
