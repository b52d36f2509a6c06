/** A value that may be absent: the source's zero values, second results and error returns. */
module Wrappers {
  datatype Option<+T> = None | Some(value: T)
}
