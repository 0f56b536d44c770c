/** Failure-carrying wrappers shared by every part of the model: the
    Python program signals failure by raising, the model by returning. */
module Basics {

  datatype Option<+T> = None | Some(value: T)

  datatype Result<+T, +E> = Ok(value: T) | Err(error: E)
}
