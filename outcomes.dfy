/** Outcomes of the dashboard's operations: an optional value, and a result
    that is either a value or the Python exception the code would raise. */
module Outcomes {

  datatype Option<+T> = None | Some(value: T)

  /** The two exceptions the modelled code can raise. */
  datatype PyError =
    | UnboundLocalError  // `return text` when no branch of the classifier assigned `text`
    | IndexError         // `.tolist()[0]` on an empty selection

  /** A value, or the exception raised instead. */
  datatype Result<+T> = Ok(value: T) | Err(error: PyError)
}
