/** The cipher engine of pyauth.c: `encrypt` produces the payload
    `iv || CBC(Pad(plaintext))`, and `decrypt` splits the IV off a payload, runs
    CBC decryption and validates and strips the padding. */
module CipherEngine {
  import opened Bytes
  import opened Results
  import opened Padding
  import opened Cbc

  /** The payload is one IV block followed by one ciphertext block per padded
      plaintext block. Reading the payload as blocks `B_0 B_1 ...`, `B_0` is
      the IV and every later block is the CBC step `B_(i+1) = E(P_i xor B_i)`
      over the padded plaintext blocks `P_i`. */
  function Encrypt(cipher: BlockCipher, plaintext: seq<byte>, key: Key, iv: Block): (payload: seq<byte>)
    ensures |payload| == BlockSize + (|plaintext| / BlockSize + 1) * BlockSize
    ensures |payload| % BlockSize == 0
    ensures payload[..BlockSize] == iv
    ensures var blocks := Split(payload); var padded := Split(Pad(plaintext));
      && |blocks| == |padded| + 1
      && forall i :: 0 <= i < |padded| ==>
           blocks[i + 1] == cipher.encrypt(key, Xor(padded[i], blocks[i]))
  {
    var cipherBlocks := CbcEncrypt(cipher, key, iv, Split(Pad(plaintext)));
    JoinCons(iv, cipherBlocks);
    SplitJoin([iv] + cipherBlocks);
    iv + Join(cipherBlocks)
  }

  /** The CBC decryption of a payload's ciphertext under the IV it starts
      with: plaintext block `i` is `D(B_(i+1)) xor B_i` over the payload's
      blocks `B_0 B_1 ...`. */
  function DecryptedBuffer(cipher: BlockCipher, payload: seq<byte>, key: Key): (plain: seq<byte>)
    requires |payload| >= BlockSize && |payload| % BlockSize == 0
    ensures |plain| == |payload| - BlockSize
    ensures var blocks := Split(payload); var plainBlocks := Split(plain);
      && |blocks| == |plainBlocks| + 1
      && forall i :: 0 <= i < |plainBlocks| ==>
           plainBlocks[i] == Xor(cipher.decrypt(key, blocks[i + 1]), blocks[i])
  {
    var iv: Block := payload[..BlockSize];
    var cipherBlocks := Split(payload[BlockSize..]);
    assert payload == iv + Join(cipherBlocks);
    JoinCons(iv, cipherBlocks);
    SplitJoin([iv] + cipherBlocks);
    var plainBlocks := CbcDecrypt(cipher, key, iv, cipherBlocks);
    SplitJoin(plainBlocks);
    Join(plainBlocks)
  }

  /** Decrypts a payload. A payload shorter than one block, holding no
      ciphertext block, or not made of whole blocks is `InvalidInput`; otherwise
      the result is `InvalidPadding` unless the decrypted buffer carries valid
      padding, and then it is the buffer with its `p` padding bytes removed,
      which re-pads to exactly the decrypted buffer. */
  function Decrypt(cipher: BlockCipher, payload: seq<byte>, key: Key): (r: Result<seq<byte>>)
    ensures |payload| < BlockSize ==> r == Err(InvalidInput)
    ensures |payload| == BlockSize || |payload| % BlockSize != 0 ==> r == Err(InvalidInput)
    ensures r.Err? ==> r.error in {InvalidInput, InvalidPadding}
    ensures r.Ok? ==> |payload| > BlockSize && |payload| % BlockSize == 0
    ensures r.Ok? ==>
      var buffer := DecryptedBuffer(cipher, payload, key);
      && Pad(r.value) == buffer
      && |r.value| == |payload| - BlockSize - buffer[|buffer| - 1] as int
    ensures |payload| > BlockSize && |payload| % BlockSize == 0 ==>
      && (r.Err? ==> r.error == InvalidPadding)
      && forall x {:trigger Pad(x)} :: Pad(x) == DecryptedBuffer(cipher, payload, key) ==> r == Ok(x)
  {
    if |payload| < BlockSize then Err(InvalidInput)
    else if |payload| == BlockSize || |payload| % BlockSize != 0 then Err(InvalidInput)
    else
      var buffer := DecryptedBuffer(cipher, payload, key);
      var r := Unpad(buffer);
      if r.Ok? then UnpadIffPad(buffer, r.value); r else r
  }

  /** Decrypting an encryption under the same key gives back the plaintext,
      for every plaintext, key and IV, provided the block cipher's decryption
      undoes its encryption. */
  lemma RoundTrip(cipher: BlockCipher, plaintext: seq<byte>, key: Key, iv: Block)
    requires Inverts(cipher)
    ensures Decrypt(cipher, Encrypt(cipher, plaintext, key, iv), key) == Ok(plaintext)
  {
    var payload := Encrypt(cipher, plaintext, key, iv);
    var blocks := Split(payload);
    var padded := Split(Pad(plaintext));
    var buffer := DecryptedBuffer(cipher, payload, key);
    var plainBlocks := Split(buffer);
    forall i | 0 <= i < |padded|
      ensures plainBlocks[i] == padded[i]
    {
      XorCancel(padded[i], blocks[i]);
    }
    assert plainBlocks == padded;
    assert buffer == Join(plainBlocks) == Join(padded) == Pad(plaintext);
  }

  // ---------------------------------------------------------------------
  // `decrypt` as written measures the binary payload with `strlen`, admits a
  // measured length of exactly one block and never checks that the
  // ciphertext is a whole number of blocks.

  /** The length `strlen` reports for a NUL-terminated buffer: the number of
      bytes before the first zero byte, or the whole buffer if it holds none. */
  function CStringLength(buffer: seq<byte>): (n: nat)
    ensures n <= |buffer|
    ensures forall i :: 0 <= i < n ==> buffer[i] != 0
    ensures n < |buffer| ==> buffer[n] == 0
  {
    if |buffer| == 0 || buffer[0] == 0 then 0 else 1 + CStringLength(buffer[1..])
  }

  /** What `decrypt` as written does with a buffer. It returns 0 with the
      bytes before the NUL it writes, or returns 1; or it reads the pad byte at
      an index before its output buffer; or it hands the CBC routine a
      ciphertext length that is not a whole number of blocks, whose effect
      depends on code and memory outside this model. */
  datatype CDecryptOutcome =
    | ReturnsZero(plain: seq<byte>)
    | ReturnsOne
    | ReadsOutside(index: int)
    | PartialBlock(ciphertextLength: int)

  /** `decrypt` as written: the payload length is what `strlen` measures, a
      measured length under one block returns 1, the ciphertext is everything
      measured after the IV, the pad byte is read at `ciphertext_len - 1`, and
      the padding checks return 1 on failure. When the measured length is a
      whole number of blocks longer than one, it behaves like `Decrypt` on the
      measured bytes: 0 with the same plaintext exactly when `Decrypt`
      succeeds, and 1 exactly on bad padding. A payload without zero bytes is
      measured in full, so there it agrees with `Decrypt` on the payload. */
  function DecryptAsWritten(cipher: BlockCipher, payload: seq<byte>, key: Key): (r: CDecryptOutcome)
    ensures CStringLength(payload) < BlockSize ==> r == ReturnsOne
    ensures CStringLength(payload) == BlockSize ==> r == ReadsOutside(-1)
    ensures CStringLength(payload) > BlockSize && CStringLength(payload) % BlockSize != 0 ==>
      r == PartialBlock(CStringLength(payload) - BlockSize)
    ensures var n := CStringLength(payload);
      n > BlockSize && n % BlockSize == 0 ==>
      && (r.ReturnsZero? <==> Decrypt(cipher, payload[..n], key).Ok?)
      && (r.ReturnsZero? ==> r.plain == Decrypt(cipher, payload[..n], key).value)
      && (r == ReturnsOne <==> Decrypt(cipher, payload[..n], key) == Err(InvalidPadding))
    ensures
      && (forall i :: 0 <= i < |payload| ==> payload[i] != 0)
      && |payload| > BlockSize && |payload| % BlockSize == 0
      ==>
      && (r.ReturnsZero? <==> Decrypt(cipher, payload, key).Ok?)
      && (r.ReturnsZero? ==> r.plain == Decrypt(cipher, payload, key).value)
      && (r == ReturnsOne <==> Decrypt(cipher, payload, key) == Err(InvalidPadding))
  {
    var n := CStringLength(payload);
    assert n == |payload| ==> payload[..n] == payload;
    if n < BlockSize then ReturnsOne
    else
      var ciphertextLength := n - BlockSize;
      if ciphertextLength - 1 < 0 then ReadsOutside(ciphertextLength - 1)
      else if ciphertextLength % BlockSize != 0 then PartialBlock(ciphertextLength)
      else
        var measured := payload[..n];
        DecryptWholeBlocks(cipher, measured, key);
        match Unpad(DecryptedBuffer(cipher, measured, key))
        case Ok(plain) => ReturnsZero(plain)
        case Err(_) => ReturnsOne
  }

  /** On a whole number of blocks longer than one, `Decrypt` is the padding
      check on the decrypted buffer, failing only on bad padding. */
  lemma DecryptWholeBlocks(cipher: BlockCipher, payload: seq<byte>, key: Key)
    requires |payload| > BlockSize && |payload| % BlockSize == 0
    ensures Decrypt(cipher, payload, key) == Unpad(DecryptedBuffer(cipher, payload, key))
    ensures Decrypt(cipher, payload, key).Err? ==> Decrypt(cipher, payload, key).error == InvalidPadding
  {
  }

  /** A payload whose IV holds a zero byte makes `decrypt` as written return
      1, although decrypting its full length recovers the plaintext. */
  lemma ZeroIvByteBreaksDecryptAsWritten(cipher: BlockCipher, plaintext: seq<byte>, key: Key, iv: Block, j: nat)
    requires Inverts(cipher)
    requires j < BlockSize && iv[j] == 0
    ensures DecryptAsWritten(cipher, Encrypt(cipher, plaintext, key, iv), key) == ReturnsOne
    ensures Decrypt(cipher, Encrypt(cipher, plaintext, key, iv), key) == Ok(plaintext)
  {
    var payload := Encrypt(cipher, plaintext, key, iv);
    assert payload[j] == payload[..BlockSize][j] == 0;
    RoundTrip(cipher, plaintext, key, iv);
  }

  /** Every payload whose measured length is exactly one block passes the
      length gate as written and has its pad byte read at index -1 of the
      output buffer, while `Decrypt` rejects those measured bytes as
      `InvalidInput`. */
  lemma OneBlockPayloadReadsBeforeBuffer(cipher: BlockCipher, payload: seq<byte>, key: Key)
    requires CStringLength(payload) == BlockSize
    ensures DecryptAsWritten(cipher, payload, key) == ReadsOutside(-1)
    ensures Decrypt(cipher, payload[..BlockSize], key) == Err(InvalidInput)
  {
  }
}
