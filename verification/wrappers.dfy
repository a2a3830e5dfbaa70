/** Option, standing for a pointer that may be null. */
module Wrappers {
  datatype Option<+T> = None | Some(value: T)
}
