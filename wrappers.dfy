/** The optional value used for "a cell or none" and "a solution or none". */
module Wrappers {
  datatype Option<T> = None | Some(value: T)
}
