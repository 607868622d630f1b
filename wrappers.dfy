/** The optional value used for non-blocking queue reads and for parsers that may fail. */
module Wrappers {
  datatype Option<+T> = None | Some(value: T)
}
