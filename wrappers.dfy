/** Result type: the model's stand-in for a Python function
    that either returns a value or raises. */
module Wrappers {

  datatype Result<+T, +E> = Ok(value: T) | Err(error: E)

}
