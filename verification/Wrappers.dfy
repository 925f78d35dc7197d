// Values shared by every module: an optional value, and the C++ null pointer as a missing value.
module Wrappers {
  datatype Option<+T> = None | Some(value: T)
}
