/** The optional value of a DOM attribute that may be missing. */
module Wrappers {

  datatype Option<T> = None | Some(value: T)
}
