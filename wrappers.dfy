/** An optional value: the incoming message of one kernel-loop pass, if any. */
module Wrappers {
  datatype Option<+T> = None | Some(value: T)
}
