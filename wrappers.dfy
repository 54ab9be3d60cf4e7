/** The Option datatype: None stands for the null reference of the modelled code. */
module Wrappers {
  datatype Option<+T> = None | Some(value: T)
}
