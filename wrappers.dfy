/** The optional value that stands for Python's `None` / object results. */
module Wrappers {

  datatype Option<+T> = None | Some(value: T)
}
