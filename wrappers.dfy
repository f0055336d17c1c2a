/** Option and result types for the modelled exceptions. */
module Wrappers {

  datatype Option<+T> = None | Some(value: T)

  /** The exceptions the modelled Python code can raise. */
  datatype Error =
    | EmptySeparator        // `str.split("")` raises ValueError
    | MissingConflictList   // iterating over `cois=None` raises TypeError
    | IndexOutOfRange       // a conflict index outside [-N, N) raises IndexError
    | NothingToStack        // `np.vstack([])` raises ValueError

  datatype Result<+T> = Ok(value: T) | Err(error: Error)

  /** The outcome of a step that returns nothing but may raise. */
  datatype Outcome = Pass | Fail(error: Error)
}
