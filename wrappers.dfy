/** The optional value used for the record fields and job identifiers that may be absent. */
module Wrappers {

  datatype Option<+T> = None | Some(value: T)
}
