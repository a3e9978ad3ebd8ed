/**
 * The error values of the vault: a mirror of the `VaultError` enum
 * (src/errors.rs) and of the parts of `std::io::Error` and
 * `inquire::InquireError` that the core produces or passes on.
 */
module Errors {

  /** The `std::io::ErrorKind` values the model distinguishes. */
  datatype IoErrorKind =
    | NotFound
    | InvalidInput
    | InvalidData
    | IsADirectory
    | NotADirectory
    | AlreadyExists
    | PermissionDenied
    | OtherIo

  /** An `std::io::Error`: a kind and the message it prints. */
  datatype IoError = IoError(kind: IoErrorKind, message: string)

  /** Why an interactive prompt returned no answer. */
  datatype InputFailure =
    | Canceled      // the user pressed Esc or Ctrl-C
    | EmptyOptions  // inquire's `InvalidConfiguration`: a `Select` was given no options

  datatype VaultError =
    | DecryptionError(message: string)
    | InitializationError(message: string)
    | Io(error: IoError)
    | InputError(failure: InputFailure)
    | TimeError
    | Other(message: string)
}
