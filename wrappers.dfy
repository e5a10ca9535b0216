/** The Option and Result datatypes, used for the dictionary lookup and for the generator's two error kinds. */
module Wrappers {

  datatype Option<+T> = None | Some(value: T)

  datatype Result<+R, +E> = Ok(value: R) | Err(error: E)
}
