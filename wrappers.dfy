/** The JavaScript `null`-or-value convention, as an Option datatype. */
module Wrappers {

  datatype Option<+T> = None | Some(value: T)
}
