/** The optional value used wherever the Python code returns None or a match object that may be absent. */
module Wrappers {

  datatype Option<+T> = None | Some(value: T)
}
