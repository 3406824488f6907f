/** The failures tvault reports through `error()`, one per message (the
    two not-found checks, tvault.py:99 and 115, share one), the result type
    that carries them, and an optional string. */
module Failures {

  datatype Error =
    | ToolsMissing            // GnuPG or oathtool not on the PATH
    | WriteFailed             // gpg could not write the vault file
    | WrongPasswordOrCorrupt  // gpg could not decrypt the vault file
    | CorruptedLine           // a decrypted line is not `name:secret`
    | EmptyField              // service name or secret empty after trimming
    | ColonInName             // service name contains ':'
    | BadNamePrefix           // service name starts with ';' or '-'
    | NotFound(service: string)
    | OathtoolFailed          // oathtool exited with a non-zero status

  datatype Result<T> = Ok(value: T) | Err(error: Error)

  /** A string that may be missing: a dict lookup, `shutil.which`, a tool's
      output. */
  datatype Option = None | Some(value: string)
}
