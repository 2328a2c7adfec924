/** The optional-value datatype used for "no hit" and decoding failures. */
module Wrappers {

  datatype Option<+T> = None | Some(value: T)
}
