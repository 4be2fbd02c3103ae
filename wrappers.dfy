/** The optional result of `detect_cycle` and of the label encoder. */
module Wrappers {
  datatype Option<T> = None | Some(value: T)
}
