/** The absent-or-present value the model uses for Python's "raise, catch, print, return None". */
module Wrappers {

  datatype Option<+T> = None | Some(value: T)
}
