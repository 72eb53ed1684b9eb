/** The result of a Python call that may return nothing or raise. */
module Wrappers {
  datatype Option<+T> = None | Some(value: T)
}
