/** The optional value used where the C code returns a pointer that may be NULL. */
module Opt {
  datatype Option<+T> = None | Some(value: T)
}
