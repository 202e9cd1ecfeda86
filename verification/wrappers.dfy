/** The optional value used for the start and end designations of a maze. */
module Wrappers {
  datatype Option<+T> = None | Some(value: T)
}
