/** The optional value used wherever a lookup or a search may come back empty. */
module Wrappers {

  datatype Option<+T> = None | Some(value: T)
}
