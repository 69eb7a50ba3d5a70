/** The optional value the Python code expresses by returning None. */
module Wrappers {

  datatype Option<+T> = None | Some(value: T)

  /** The outcome of an attack step that can abort, as the scripts do with sys.exit. */
  datatype Result<+T> = Ok(value: T) | Abort(reason: string)
}
