/** The optional value shared by the shredder's modules. */
module Wrappers {

  datatype Option<T> = None | Some(value: T)
}
