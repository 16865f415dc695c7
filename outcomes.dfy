/** Optional values and the error outcomes of the Python code being modelled. */
module Outcomes {

  datatype Option<+T> = None | Some(value: T)

  /** The Python exceptions the modelled code can raise. */
  datatype PyError =
    | ValueError          // bad argument value, failed int()/float() conversion, bad reshape
    | KeyError            // lookup of a missing dictionary key
    | ZeroDivisionError   // `%` or `//` by zero

  datatype Result<+T> = Ok(value: T) | Err(error: PyError)
}
