/** The optional value shared by the string, device and video modules. */
module Wrappers {
  datatype Option<T> = None | Some(value: T)
}
