/** The conventional optional value, used for "no window found yet" and for a request field that may be absent. */
module Wrappers {
  datatype Option<+T> = None | Some(value: T)
}
