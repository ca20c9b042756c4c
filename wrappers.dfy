/** The optional-value type used for lookups, parses and the file oracle. */
module Wrappers {

  datatype Option<+T> = None | Some(value: T)
}
