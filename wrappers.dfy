/** An attribute the browser may or may not return: Python's `str | None`. */
module Wrappers {

  datatype Option<+T> = None | Some(value: T)
}
