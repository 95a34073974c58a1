/** leveldb::Status and the result types the model uses for fallible collaborators. */
module Statuses {

  /** The codes of leveldb::Status; every code but OK carries a message. */
  datatype Status =
    | OK
    | NotFound(msg: string)
    | Corruption(msg: string)
    | NotSupported(msg: string)
    | InvalidArgument(msg: string)
    | IOError(msg: string)

  /** A status that is not OK. */
  type ErrorStatus = s: Status | !s.OK? witness Corruption("")

  /** The outcome of a fallible call: its value, or the non-OK status it returned. */
  datatype Result<T> = Success(value: T) | Failure(error: ErrorStatus)

  datatype Option<T> = None | Some(value: T)
}
