/** Option and Result values, and the Python exceptions the deck can raise. */
module Wrappers {

  datatype Option<+T> = None | Some(value: T)

  /** The built-in exceptions that the modelled code can raise. */
  datatype Exception =
    | IndexError   // a list index outside the list
    | ValueError   // a zero slice step, or list.index of a missing value
    | KeyError     // a dict lookup of a missing key

  /** Either a value or the exception raised instead of returning one. */
  datatype Result<+T> = Ok(value: T) | Err(error: Exception)
}
