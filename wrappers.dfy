/** The failure-carrying result used wherever the source calls `unwrap` on a read. */
module Wrappers {
  datatype Option<+T> = None | Some(value: T)
}
