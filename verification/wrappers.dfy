/** The optional-value wrapper used for nullable handles and for `pop_min`'s result. */
module Wrappers {

  datatype Option<+T> = None | Some(value: T)
}
