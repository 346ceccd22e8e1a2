/** The optional value used for the two failure paths of the scorer: a
    response that does not parse, and a grid NumPy cannot turn into an array. */
module Wrappers {
  datatype Option<+T> = None | Some(value: T)
}
