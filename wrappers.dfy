/** The Option datatype used for absent values and for checks that may fail. */
module Wrappers {

  datatype Option<+T> = None | Some(value: T)

}
