/** Optional values, results, and the ways an index build or a merge can end early. */
module Outcome {

  datatype Option<T> = None | Some(value: T)

  /** The exceptions thrown by FileMerger, and the fatal PHP errors its code can run into. */
  datatype Error =
    | NoFiles                                    // "No files provided"
    | SourceMissing(path: string)                // "File does not exist", or the main file cannot be opened
    | NoHeader(path: string)                     // fgetcsv could not read a header line
    | JoinKeyNotFound(key: string, path: string) // "Join key '...' not found"
    | StringOffset(row: nat)                     // setNestedValue indexed into a string cell (PHP Error)
    | RowWidth(row: nat)                         // array_combine on a row narrower or wider than the header (PHP 8 ValueError)

  datatype Result<T> = Ok(value: T) | Err(error: Error)
}
