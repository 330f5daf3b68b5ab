/** The optional result the Python code expresses as a value or `None`. */
module Wrappers {
  datatype Option<+T> = None | Some(value: T)
}
