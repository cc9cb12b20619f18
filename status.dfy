/**
 * The kernel's status codes (`OsStatus`) that the modelled operations
 * return, and an optional value.
 */
module Status {

  datatype OsStatus =
    | Success
    | OutOfMemory
    | InvalidInput
    | NotFound
    | NotSupported
    | InvalidData
    | InvalidSpan
    | InvalidType
    | EndOfFile
    | AlreadyExists
    | TraverseNonFolder
    | InvalidPath
    | MoreData
    | ChecksumError
    | InvalidVersion
    | NotAvailable

  datatype Option<T> = None | Some(value: T)
}
