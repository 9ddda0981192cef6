/** The nullable value used for SQL NULL, a missing request field and a missing cookie. */
module Wrappers {

  datatype Option<+T> = None | Some(value: T)
}
