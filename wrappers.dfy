/** The optional value used for the nullable running-timer id and for parse results. */
module Wrappers {
  datatype Option<+T> = None | Some(value: T)
}
