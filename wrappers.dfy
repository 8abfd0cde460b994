/** The optional-value datatype used by the scanners. */
module Wrappers {

  datatype Option<+T> = None | Some(value: T)
}
