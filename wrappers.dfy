/** An optional value: JavaScript's `null` (or a missing lookup) is `None`. */
module Wrappers {

  datatype Option<+T> = None | Some(value: T)
}
