/** The optional value used wherever the Python code returns `None` or raises
    an exception that its caller handles. */
module Wrappers {
  datatype Option<+T> = None | Some(value: T)
}
