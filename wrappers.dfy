/** Option: a value that may be absent (the source's Maybe<T> and null pixmaps). */
module Wrappers {
  datatype Option<+T> = None | Some(value: T)
}
