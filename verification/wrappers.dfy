/** `Option`: a value that may be missing, as a JavaScript `undefined` may be. */
module Wrappers {

  /** `None` stands for a JavaScript `undefined` (a hole in an array, an omitted argument). */
  datatype Option<+T> = None | Some(value: T)
}
