/** The optional value used for lookups that may find nothing and for the
    session's username before registration (Python's `None`). */
module Wrappers {

  datatype Option<+T> = None | Some(value: T)
}
