/** Option and Result wrappers, and the exceptions the two ingestion scripts raise. */
module Common {

  datatype Option<T> = None | Some(value: T)

  /** A Python call that either returns a value or raises one of the exceptions below. */
  datatype Result<T> = Ok(value: T) | Err(error: Failure)

  /** Every way a step of the ingester can raise, named after what went wrong. */
  datatype Failure =
    | MissingFile(file: string)                       // the local path does not exist
    | EmptyFile(file: string)                         // `lines[-1]` on a file without lines
    | MissingFooter(file: string)                     // last line does not start with `TRAILER`
    | MalformedField(field: string)                   // a `|` segment that is not one `key: value`
    | MissingRecordCount(file: string)                // footer has no `Record Count` key
    | BadRecordCount(text: string)                    // `int()` refuses the declared count
    | RecordCountMismatch(counted: int, expected: int)
    | MissingBusinessDate                             // metadata tuple shorter than six values
    | LedgerQueryFailed                               // the ledger query raised
    | UnknownFileType(name: string)                   // blob name names neither table
    | BadBlobPath(name: string)                       // blob name has fewer than four `/` segments
    | EmptyBlob(name: string)                         // downloaded text without lines
}
