/** The optional value used for a nullable reference and for a map lookup that may miss. */
module Wrappers {

  /** `None` plays the part of JavaScript's `null` (or of a missing map entry). */
  datatype Option<+T> = None | Some(value: T)
}
