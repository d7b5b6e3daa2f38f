/** The optional value used where the widget's Python code returns `None`. */
module Wrappers {

  datatype Option<+T> = None | Some(value: T)
}
