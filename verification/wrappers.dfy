/** An optional value: the engine's "no move" result is `None`. */
module Wrappers {

  datatype Option<+T> = None | Some(value: T)
}
