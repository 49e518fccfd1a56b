/** The optional value used wherever the Python code returns None or raises a
    ValueError that its caller catches. */
module Wrappers {

  datatype Option<+T> = None | Some(value: T)
}
