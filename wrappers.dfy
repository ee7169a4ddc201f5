/** The optional value of a PHP variable that may hold null or false. */
module Wrappers {

  datatype Option<T> = None | Some(value: T)
}
