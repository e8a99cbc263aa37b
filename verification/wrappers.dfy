/** Option, Result and Outcome, and the failures FileCombinator reports. */
module Wrappers {

  datatype Option<+T> = None | Some(value: T)

  datatype Result<+T, +E> = Ok(value: T) | Err(error: E)

  /** Success or failure of an operation that produces no value. */
  datatype Outcome<+E> = Pass | Fail(error: E)

  /** The failures that surface as `FileCombinatorError` (or, for the
      staging file's creation in the core orchestrator, as a bare `OSError`). */
  datatype Failure =
    | FileInfoFailed     // "Failed to get file info: ..."
    | DirectoryFailed    // "Failed to process directory: ..."
    | FinalizeFailed     // "Failed to finalize output: ..."
    | CreateFailed       // the temporary file could not be created
}
