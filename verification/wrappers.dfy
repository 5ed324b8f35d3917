/** The Option datatype used where the modelled Java code uses a nullable value
    or reports a failure by throwing. */
module Wrappers {

  datatype Option<+T> = None | Some(value: T)
}
