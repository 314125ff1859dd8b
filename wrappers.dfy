/** The optional value used where the source returns `string | null`. */
module Wrappers {

  datatype Option<+T> = None | Some(value: T)
}
