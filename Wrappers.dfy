/** The optional-value datatype shared by the editor modules (Python's `None`). */
module Wrappers {

  datatype Option<+T> = None | Some(value: T)
}
