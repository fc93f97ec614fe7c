/** The optional value used where the source returns `undefined`, `null` or `-1`. */
module Wrappers {

  datatype Option<+T> = None | Some(value: T)
}
