/** Small value wrappers shared by the model. */
module Wrappers {

  /** A possibly absent value: `None` plays the part of Java's `null`. */
  datatype Option<+T> = None | Some(value: T)
}
