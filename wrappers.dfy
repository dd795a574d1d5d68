/** The optional value used for nullable columns and for the injected engine fault. */
module Wrappers {

  datatype Option<+T> = None | Some(value: T)

}
