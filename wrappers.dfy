/** The optional value used for a rating that may be missing (NaN in the table). */
module Wrappers {
  datatype Option<+T> = None | Some(value: T)
}
