/** The optional value used for absent URL parameters, failed fetches and unset UI state. */
module Wrappers {
  datatype Option<+T> = None | Some(value: T)
}
