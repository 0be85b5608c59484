/** The optional value used for SQL rows that may be absent and form fields that may be missing. */
module Wrappers {

  datatype Option<+T> = None | Some(value: T)
}
