/** The optional value used for rows a query may not find and for the session slot. */
module Wrappers {

  datatype Option<+T> = None | Some(value: T)
}
