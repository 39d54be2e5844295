/** The optional value used where the source has `undefined`, a missing row or a failed reply. */
module Wrappers {
  datatype Option<+T> = None | Some(value: T)
}
