/** The optional value used for absent properties and failed matches. */
module Wrappers {
  datatype Option<T> = None | Some(value: T)
}
