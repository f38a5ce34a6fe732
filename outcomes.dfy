/** Values shared by the models of batbelt/structs.py and batbelt/strings.py:
    an optional value, and the Python exceptions the modelled code raises or
    catches, as an explicit result. */
module Outcomes {

  datatype Option<T> = None | Some(value: T)

  /** The built-in exceptions that the modelled code raises or catches. */
  datatype Error = KeyError | IndexError | TypeError

  /** The outcome of a call that may raise one of the exceptions above. */
  datatype Result<T> = Ok(value: T) | Err(error: Error)
}
