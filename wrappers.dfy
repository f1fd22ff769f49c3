/** The optional result used where the Python code returns a cell or `None`. */
module Wrappers {

  datatype Option<+T> = None | Some(value: T)
}
