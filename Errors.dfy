/** The exceptions the protected-region builder and support throw, as values. */
module Errors {

  datatype Option<+T> = None | Some(value: T)

  /** The reasons an operation of the builder or of the support aborts. */
  datatype Failure =
    | NullParser                      // addParser was given a null parser
    | NoExtensions                    // addParser was given no file extensions
    | AddParserLocked                 // addParser after a completed read
    | NoParsers                       // read before any addParser
    | NoDirectory(path: string)       // read of an existing path that has no files
    | DuplicateRegionId(id: string)   // a region id reached the pool a second time
    | MalformedInput(file: string)    // the region parser rejected the text of a file
    | UnreadableFile(file: string)    // the reader returned null for a listed file

  /** A call that either returns normally or throws. */
  datatype Outcome = Pass | Fail(failure: Failure)

  /** A call that returns a value or throws. */
  datatype Result<+T> = Ok(value: T) | Err(failure: Failure)
}
