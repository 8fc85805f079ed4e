/** The optional value used for the parsed tree that may be unavailable and
    for the value a constant carries when it is numeric. */
module Wrappers {

  datatype Option<+T> = None | Some(value: T)
}
