/** The optional value shared by both games: the source's `None` results. */
module Wrappers {

  datatype Option<T> = None | Some(value: T)
}
