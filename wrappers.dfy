/** The optional-value datatype used for absent JSON fields and unset environment variables. */
module Wrappers {

  datatype Option<+T> = None | Some(value: T)
}
