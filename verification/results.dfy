/** Error kinds and the failure-carrying result types shared by the cipher
    engine and the credential codec. */
module Results {

  /** Every way an operation of the core can fail. */
  datatype Error =
    | NotInitialized   // register before a non-empty store path is configured
    | EmptyPath        // initialize with the empty path
    | EmptyField       // empty username or password
    | KeyTooShort      // secret shorter than the 16-byte key
    | InvalidInput     // payload too short or not made of whole blocks
    | InvalidPadding   // the PKCS#7 padding check failed after decryption
    | StoreWriteError  // the record store refused the write

  datatype Result<+T> = Ok(value: T) | Err(error: Error)

  datatype Option<+T> = None | Some(value: T)
}
