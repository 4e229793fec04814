/** Optional values and success-or-error results, standing for Python's
    exceptions (KeyError, ValueError, IndexError) in the rest of the model. */
module Wrappers {

  datatype Option<+T> = None | Some(value: T)

  datatype Result<+T, +E> = Ok(value: T) | Err(error: E)
}
