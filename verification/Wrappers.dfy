// Results that may be absent: the source's NULL pointers and "none" codes.
module Wrappers {
  datatype Option<+T> = None | Some(value: T)
}
