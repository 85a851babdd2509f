/** The optional value used for nullable references (a parent, an entity's game data). */
module Wrappers {

  datatype Option<+T> = None | Some(value: T)
}
