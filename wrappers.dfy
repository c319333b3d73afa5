/** The optional value an iterator step returns. */
module Wrappers {

  /** `None` is the "no more elements" signal of an exhausted iterator. */
  datatype Option<+T> = None | Some(value: T)
}
