/** Java's nullable results (a missing map entry, a header that is not sent). */
module Wrappers {
  datatype Option<+T> = None | Some(value: T)
}
