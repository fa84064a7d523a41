/** The credential codec of pyauth.c: the store path set by `initialize`, and
    the checks, key preparation, encryption and hex encoding `register_account`
    performs before handing one record to the store. */
module CredentialCodec {
  import opened Bytes
  import opened Results
  import opened Cbc
  import opened CipherEngine
  import opened Hex

  /** Size of the `encrypted_password` buffer `register_account` hands to
      `encrypt`, and the longest password whose payload fits in it. */
  const OutputBufferSize: nat := 128
  const MaxPlaintextLength: nat := 111

  /** The payload fits the 128-byte `encrypted_password` buffer exactly when
      the password is at most 111 bytes long. */
  lemma PayloadFitsOutputBuffer(cipher: BlockCipher, plaintext: seq<byte>, key: Key, iv: Block)
    ensures |Encrypt(cipher, plaintext, key, iv)| <= OutputBufferSize <==> |plaintext| <= MaxPlaintextLength
  {
  }

  /** The process-wide JSON path: never set, or the path of the latest
      `initialize` call, stored even when that call rejected it. */
  datatype Config = Unset | Configured(path: string)

  /** `register_account` proceeds only with a path that is set and not empty. */
  predicate Ready(config: Config) {
    config.Configured? && config.path != ""
  }

  /** The configuration after a call, with the call's outcome. */
  datatype Step = Step(config: Config, outcome: Result<()>)

  /** Stores `path`, then rejects it if it is empty. Whatever was configured
      before is replaced, so a failed call leaves the codec not ready even after
      an earlier successful one. */
  function Initialize(config: Config, path: string): (step: Step)
    ensures step.config == Configured(path)
    ensures step.outcome.Ok? <==> path != ""
    ensures step.outcome.Err? ==> step.outcome.error == EmptyPath
    ensures Ready(step.config) <==> step.outcome.Ok?
  {
    Step(Configured(path), if path == "" then Err(EmptyPath) else Ok(()))
  }

  /** The AES key is the first 16 bytes of the caller's secret; a shorter
      secret is an error. */
  function PrepareKey(secret: seq<byte>): (r: Result<Key>)
    ensures r.Ok? <==> |secret| >= KeySize
    ensures r.Err? ==> r.error == KeyTooShort
    ensures r.Ok? ==> forall i :: 0 <= i < KeySize ==> r.value[i] == secret[i]
  {
    if |secret| < KeySize then Err(KeyTooShort) else Ok(secret[..KeySize])
  }

  /** Secrets that agree on their first 16 bytes give the same key: nothing
      after byte 16 of the secret reaches the cipher. */
  lemma PrepareKeyIgnoresTail(secret: seq<byte>, other: seq<byte>)
    requires |secret| >= KeySize && |other| >= KeySize
    requires secret[..KeySize] == other[..KeySize]
    ensures PrepareKey(secret) == PrepareKey(other)
  {
  }

  /** The one key/value pair written to the JSON file at `path`. */
  datatype Record = Record(path: string, username: string, encryptedPassword: string)

  /** Registers an account. Checks run in the source's order: the store path,
      then the username and password, then the secret's length; only then is
      the password encrypted under the prepared key and IV, hex-encoded, and
      the record offered to `store`, whose verdict decides between success and
      `StoreWriteError`. */
  function RegisterAccount(
    config: Config, username: string, password: seq<byte>, secret: seq<byte>,
    iv: Block, cipher: BlockCipher, store: Record -> bool): (r: Result<Record>)
    ensures !Ready(config) ==> r == Err(NotInitialized)
    ensures Ready(config) && (username == [] || password == []) ==> r == Err(EmptyField)
    ensures Ready(config) && username != [] && password != [] && |secret| < KeySize ==> r == Err(KeyTooShort)
    ensures r.Err? ==> r.error in {NotInitialized, EmptyField, KeyTooShort, StoreWriteError}
    ensures r.Ok? || r.error == StoreWriteError ==>
      Ready(config) && username != [] && password != [] && |secret| >= KeySize
    ensures r.Ok? ==>
      && r.value.path == config.path
      && r.value.username == username
      && r.value.encryptedPassword == HexEncode(Encrypt(cipher, password, secret[..KeySize], iv))
      && store(r.value)
    ensures r.Ok? ==>
      |r.value.encryptedPassword| == 2 * (BlockSize + (|password| / BlockSize + 1) * BlockSize)
    ensures Ready(config) && username != [] && password != [] && |secret| >= KeySize ==>
      var record := Record(config.path, username, HexEncode(Encrypt(cipher, password, secret[..KeySize], iv)));
      r == (if store(record) then Ok(record) else Err(StoreWriteError))
  {
    if !Ready(config) then Err(NotInitialized)
    else if username == [] || password == [] then Err(EmptyField)
    else
      match PrepareKey(secret)
      case Err(e) => Err(e)
      case Ok(key) =>
        var record := Record(config.path, username, HexEncode(Encrypt(cipher, password, key, iv)));
        if store(record) then Ok(record) else Err(StoreWriteError)
  }

  /** A failed `initialize` disables registration, whatever was configured
      before it. */
  lemma FailedInitializeDisablesRegister(
    config: Config, username: string, password: seq<byte>, secret: seq<byte>,
    iv: Block, cipher: BlockCipher, store: Record -> bool)
    ensures Initialize(config, "").outcome == Err(EmptyPath)
    ensures RegisterAccount(Initialize(config, "").config, username, password, secret, iv, cipher, store)
      == Err(NotInitialized)
  {
  }

  /** End to end: the stored hex text decodes to a payload of at least two
      blocks whose first block is the IV and which decrypts, under the key
      prepared from the same secret, to the registered password. */
  lemma RegisterRecoversPassword(
    config: Config, username: string, password: seq<byte>, secret: seq<byte>,
    iv: Block, cipher: BlockCipher, store: Record -> bool, record: Record)
    requires Inverts(cipher)
    requires RegisterAccount(config, username, password, secret, iv, cipher, store) == Ok(record)
    ensures |record.encryptedPassword| >= 4 * BlockSize
    ensures HexDecode(record.encryptedPassword).Some?
    ensures var payload := HexDecode(record.encryptedPassword).value;
      && |payload| >= 2 * BlockSize
      && payload[..BlockSize] == iv
      && Decrypt(cipher, payload, secret[..KeySize]) == Ok(password)
  {
    var key: Key := secret[..KeySize];
    var payload := Encrypt(cipher, password, key, iv);
    HexDecodeEncode(payload);
    RoundTrip(cipher, password, key, iv);
  }

  // ---------------------------------------------------------------------
  // The hex loop of `register_account` as written encodes all 128 bytes of
  // the `encrypted_password` buffer into the 256-byte `hex_encrypted_password`
  // buffer, and `sprintf` ends the last pair with a NUL.

  const HexBufferSize: nat := 256

  /** The characters the hex loop as written stores: two digits for every
      byte of the whole output buffer, then the terminating NUL. */
  function HexLoopAsWritten(buffer: seq<byte>): (written: string)
    requires |buffer| == OutputBufferSize
    ensures |written| == 2 * OutputBufferSize + 1
    ensures written[|written| - 1] == '\0'
    ensures written[..2 * OutputBufferSize] == HexEncode(buffer)
  {
    HexEncode(buffer) + ['\0']
  }

  /** The loop as written writes one character past the hex buffer, and the
      text it stores carries the hex of every buffer byte after the payload,
      where `RegisterAccount` stores the hex of the payload alone. */
  lemma HexLoopOverrunsBuffer(payload: seq<byte>, rest: seq<byte>)
    requires |payload| + |rest| == OutputBufferSize
    ensures |HexLoopAsWritten(payload + rest)| == HexBufferSize + 1
    ensures HexLoopAsWritten(payload + rest) == HexEncode(payload) + HexEncode(rest) + ['\0']
  {
    HexEncodeConcat(payload, rest);
  }
}
