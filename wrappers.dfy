/** The optional value used wherever the source either produces something or gives up. */
module Wrappers {
  datatype Option<+T> = None | Some(value: T)
}
