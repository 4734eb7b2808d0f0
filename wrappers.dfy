/** The optional value returned where the modelled code may stop early or throw. */
module Wrappers {
  datatype Option<T> = None | Some(value: T)
}
