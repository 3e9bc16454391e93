/** The optional value used for absent regex groups and failed integer conversions. */
module Wrappers {

  datatype Option<+T> = None | Some(value: T)
}
