/** The optional value used for every form field that may be left blank. */
module Wrappers {

  /** `None` is a blank field (the empty string in the form); `Some(v)` holds a
      value, so that zero and blank are different values. */
  datatype Option<+T> = None | Some(value: T)
}
