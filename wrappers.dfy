/** The optional value used for file reads that may fail and lines that may not parse. */
module Wrappers {

  datatype Option<+T> = None | Some(value: T)
}
