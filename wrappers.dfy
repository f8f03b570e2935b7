/** The conventional optional value, used where the C++ code returns a sentinel. */
module Wrappers {
  datatype Option<+T> = None | Some(value: T)
}
