/** The optional value used for Ruby's `nil` results (a failed `index` or `match`). */
module Wrappers {

  datatype Option<+T> = None | Some(value: T)

}
