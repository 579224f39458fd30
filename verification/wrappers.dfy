/** The optional value used where the program either produces a result or
    silently produces nothing (an undersized group, a failed encoding, a
    rejected address block). */
module Wrappers {

  datatype Option<+T> = None | Some(value: T)
}
