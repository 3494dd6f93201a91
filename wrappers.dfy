/** The optional-value wrapper used for absent request bodies and failed timestamp parses. */
module Wrappers {
  datatype Option<+T> = None | Some(value: T)
}
