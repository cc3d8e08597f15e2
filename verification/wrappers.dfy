/** The optional value PHP expresses with `null`. */
module Wrappers {

  datatype Option<+T> = None | Some(value: T)
}
