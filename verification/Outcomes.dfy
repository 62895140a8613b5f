/** Results and error values shared by every component. */
module Outcomes {

  datatype Option<+T> = None | Some(value: T)

  datatype Result<+T> = Ok(value: T) | Err(error: CryError)

  /** What was wrong with bytes that should have been a file header, a key or a signature. */
  datatype FormatFault =
    | TooShort
    | BadMagic
    | UnknownAlgorithm(id: int)
    | BadPublicKey
    | BadSignature
    | MissingPassphrase
    | ExportFailed
    | GenerationFailed
    | RsaDerivationDisabled

  datatype IoFault = UnexpectedEof | NotFound | OtherIo

  /** The error values of src/error.rs, without their message text. */
  datatype CryError =
    | Io(fault: IoFault)
    | EncryptionFailed
    | DecryptionFailed
    | HeaderTampered
    | Truncated(expected: nat, got: nat)
    | InvalidFormat(what: FormatFault)
    | Kdf
    | FileExists
    | SuspiciousChunkLen(index: nat, len: nat)
    | VerificationFailed
}
