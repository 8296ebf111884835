/** The conventional optional-value datatype, used where the program catches an exception. */
module Wrappers {

  datatype Option<+T> = None | Some(value: T)

}
