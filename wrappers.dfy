/** The optional value used wherever the game reads something that may be absent:
    a character past the end of a string (`undefined` in the game), a missing
    storage entry, or a letter with no recorded status. */
module Wrappers {

  datatype Option<+T> = None | Some(value: T)
}
