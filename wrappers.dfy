/** An optional value, used where the modelled code may find nothing. */
module Wrappers {
  datatype Option<T> = None | Some(value: T)
}
