/** The optional result of a move: `None` for an illegal (empty-pit) move. */
module Wrappers {

  datatype Option<+T> = None | Some(value: T)
}
