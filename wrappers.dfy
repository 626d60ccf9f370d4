/** The Option type used for the parser's "not a sample" answer. */
module Wrappers {
  datatype Option<+T> = None | Some(value: T)
}
