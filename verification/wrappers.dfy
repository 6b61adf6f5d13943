/** An optional value: the result of a foreign call that may reject. */
module Wrappers {

  /** `None` stands for a rejected promise or an absent value. */
  datatype Option<+T> = None | Some(value: T)
}
