/** A value that may be missing, for the source's nil results and missing map keys. */
module Wrappers {

  datatype Option<T> = None | Some(value: T)
}
