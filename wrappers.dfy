/** A small optional-value datatype, used where the C code passes a pointer that may be NULL. */
module Wrappers {

  datatype Option<+T> = None | Some(value: T)
}
