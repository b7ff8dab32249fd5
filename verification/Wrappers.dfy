/** The optional value the models use where the program has `None`. */
module Wrappers {
  datatype Option<+T> = None | Some(value: T)
}
