/** Python-level results: a value that may be None, and a call that either
    returns or raises one of the exceptions the detector's code can meet. */
module Outcomes {

  datatype Option<+T> = None | Some(value: T)

  /** The exception classes that reach or cross the modelled functions. */
  datatype Error =
    | InvalidVersion     // packaging.version.InvalidVersion
    | GitCommandError    // git.exc.GitCommandError from `git tag --contains`
    | IndexError         // subscript past the end of a list
    | TypeError          // subscript of None (a failed re.search)
    | UnboundLocalError  // `resp` read after a failed request
    | MarkupError        // AttributeError/IndexError while walking a table row

  /** A Python call: it returns a value or raises. */
  datatype Outcome<+T> = Ok(value: T) | Raised(error: Error)
}
