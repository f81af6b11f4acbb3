/** The optional value the readers in this model return. */
module Wrappers {
  datatype Option<T> = None | Some(value: T)
}
