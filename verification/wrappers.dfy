/** The optional value returned by the move selector: `None` plays the role
    of Python's `None` when no cell is left to play. */
module Wrappers {

  datatype Option<+T> = None | Some(value: T)
}
