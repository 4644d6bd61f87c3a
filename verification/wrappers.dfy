/** The optional value used for owned, possibly empty frame handles and for the lazily computed model centre. */
module Wrappers {

  datatype Option<+T> = None | Some(value: T)

}
