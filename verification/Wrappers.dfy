/** The optional value used wherever the program either has a value or has none (a Python `None`,
    or a library call that raised instead of returning). */
module Wrappers {

  datatype Option<+T> = None | Some(value: T)
}
