/** The optional value used for absent results (no session in a log, no cache file). */
module Wrappers {
  datatype Option<T> = None | Some(value: T)
}
