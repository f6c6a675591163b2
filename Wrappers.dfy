/** The optional value used for absent inputs (a missing file, a null object). */
module Wrappers {
  datatype Option<T> = None | Some(value: T)
}
