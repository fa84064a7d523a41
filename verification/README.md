# PyAuth password protection, modelled in Dafny

PyAuth is a Python extension module written in C (`pyauth.c`). It protects an
account's password before storing it. `register_account` takes a username, a
password and a pre-derived secret. It uses the first 16 bytes of the secret as
an AES-128 key. It encrypts the password as `iv || CBC(PKCS#7-pad(password))`,
hex-encodes that payload in lowercase, and writes the pair
`username -> hex` to the JSON file whose path `initialize` set. `decrypt` is
the inverse of the payload format: it splits off the IV, runs CBC decryption,
and validates and strips the padding.

The model has one module per piece of that pipeline:

- `Results`: the error kinds and the `Result`/`Option` types.
- `Bytes`: bytes (`bv8`), 16-byte blocks and keys, block XOR, and cutting a
  byte sequence into blocks (`Split`) and back (`Join`).
- `Padding`: `pad_input` (`Pad`) and the padding check at the end of
  `decrypt` (`Unpad`), following section 6.3 of RFC 5652.
- `Cbc`: CBC encryption and decryption over an abstract block cipher, written
  step by step like the chaining loop and characterised block by block by the
  equations of section 6.2 of NIST SP 800-38A.
- `CipherEngine`: `encrypt` and `decrypt`, the round trip, and the
  `decrypt`-as-written members behind the findings below.
- `Hex`: the `%02x` encoding loop and an inverse decoder.
- `CredentialCodec`: the path state set by `initialize`, key preparation, and
  the checks and steps of `register_account`.

The AES block transform comes from tiny-AES-c, which is not part of this
model. A `BlockCipher` is any pair of functions `encrypt(key, block)` and
`decrypt(key, block)` on 16-byte blocks. The round-trip theorems assume
`Inverts(cipher)`: decryption under a key undoes encryption under the same key.

All members are pure functions over immutable sequences. Things the C code
gets from its environment are parameters:

- the IV;
- the block cipher;
- the store's verdict on a write, a function `Record -> bool` standing for
  `write_json`.

## Model

| member | source | states |
|---|---|---|
| `Padding.Pad` | pyauth.c:16-26 | The padded length is `(n/16 + 1)*16`: a positive multiple of 16, greater than `n`, at most `n + 16`, and `n + 16` when `n` is already a multiple of 16. The input is kept unchanged as a prefix, and every added byte equals the number of bytes added. |
| `Padding.Unpad` | pyauth.c:74-84 | The padding check fails only with `InvalidPadding`. It succeeds exactly when the data is some prefix followed by 1..16 bytes that each hold the count of those trailing bytes, and the result is that prefix. |
| `Padding.UnpadPad` | pyauth.c:74-84 | The padding check accepts every output of `pad_input` and strips exactly the bytes it added. |
| `Padding.UnpadIffPad` | pyauth.c:16-25 | On a whole number of blocks, the check returns `x` if and only if the data is exactly the padding of `x`. |
| `Cbc.CbcEncrypt` | pyauth.c:46 | One ciphertext block per plaintext block. Block `i` is `E(P_i xor C_(i-1))`, with the IV in place of `C_(-1)`. |
| `Cbc.CbcDecrypt` | pyauth.c:72 | One plaintext block per ciphertext block. Block `i` is `D(C_i) xor C_(i-1)`, with the IV in place of `C_(-1)`. |
| `Cbc.CbcRoundTrip` | pyauth.c:40-72 | When the block cipher's decryption undoes its encryption, CBC decryption with the same key and IV returns every plaintext block. |
| `CipherEngine.Encrypt` | pyauth.c:28-56 | The payload is `16 + (n/16 + 1)*16` bytes long and starts with the IV unchanged. Read as blocks `B_0 B_1 ...`, each later block is the CBC step `B_(i+1) = E(P_i xor B_i)` over the padded plaintext blocks. |
| `CipherEngine.DecryptedBuffer` | pyauth.c:62-72 | Ciphertext is everything after the first 16 bytes. Its decryption has the ciphertext's length, and its block `i` is `D(B_(i+1)) xor B_i` over the payload's blocks. |
| `CipherEngine.Decrypt` | pyauth.c:58-87 | A payload under 16 bytes, of exactly 16 bytes, or not a multiple of 16 is `InvalidInput`. Any other failure is `InvalidPadding`. A success re-pads to exactly the decrypted buffer and has length `payload length - 16 - p`, where `p` is the last decrypted byte. Every input whose padding equals the decrypted buffer is returned. |
| `CipherEngine.RoundTrip` | pyauth.c:28-87 | For every plaintext, key and IV, decrypting the encryption gives back the plaintext, given an invertible block cipher. |
| `CipherEngine.CStringLength` | pyauth.c:65 | `strlen` of the payload: no byte before the measured length is zero, and the byte at the measured length, if any, is zero. |
| `CipherEngine.DecryptAsWritten` | pyauth.c:65-84 | `decrypt` as written. A measured length under 16 returns 1. A measured length of exactly 16 reads the pad byte at index -1. A ciphertext that is not a whole number of blocks reaches the CBC call as is. When the measured length is a whole number of blocks longer than one, it behaves like `Decrypt` on the measured bytes: it returns 0 with `Decrypt`'s plaintext exactly when `Decrypt` succeeds, and returns 1 exactly when `Decrypt` reports bad padding. This includes a zero byte inside the ciphertext that cuts the payload at a block boundary. On a payload with no zero byte, the measured bytes are the whole payload. |
| `CipherEngine.ZeroIvByteBreaksDecryptAsWritten` | pyauth.c:65-68 | If any IV byte is zero, `decrypt` as written returns 1 on the payload, although the full payload decrypts to the plaintext. |
| `CipherEngine.OneBlockPayloadReadsBeforeBuffer` | pyauth.c:66-74 | Every payload whose measured length is exactly 16 makes `decrypt` as written read its pad byte at index -1, while `Decrypt` rejects those 16 bytes with `InvalidInput`. |
| `Hex.HexEncode` | pyauth.c:180-182 | Each byte becomes two lowercase hex digits, high nibble first. Byte `i` occupies characters `2i` and `2i+1`, and the text is twice the byte length. |
| `Hex.HexDecodeEncode` | pyauth.c:180-182 | Decoding the hex text gives the bytes back, so no two payloads share a stored text. |
| `Hex.HexEncodeDecode` | pyauth.c:180-182 | Any text the decoder accepts is exactly the hex encoding of its result. |
| `CredentialCodec.Initialize` | pyauth.c:130-142 | The path is stored before it is checked, replacing any earlier path. The call fails with `EmptyPath` exactly when the path is empty. The codec is ready afterwards exactly when the call succeeded. |
| `CredentialCodec.PayloadFitsOutputBuffer` | pyauth.c:169 | The payload fits the 128-byte `encrypted_password` buffer exactly when the password is at most 111 bytes long. |
| `CredentialCodec.PrepareKey` | pyauth.c:165-167 | The key is the first 16 bytes of the secret. A secret shorter than 16 bytes is `KeyTooShort`. |
| `CredentialCodec.PrepareKeyIgnoresTail` | pyauth.c:166-167 | Secrets that agree on their first 16 bytes give the same key. |
| `CredentialCodec.RegisterAccount` | pyauth.c:145-191 | Checks run in this order: unset or empty path gives `NotInitialized`; then an empty username or password gives `EmptyField`; then a short secret gives `KeyTooShort`. A call that passes all three offers the store one record: the configured path, the username and the hex of `Encrypt(password, key, iv)`, which is `2*(16 + (n/16+1)*16)` characters long. It then returns that record exactly when the store accepts it, and `StoreWriteError` otherwise. |
| `CredentialCodec.FailedInitializeDisablesRegister` | pyauth.c:130-157 | After `initialize` with an empty path, whatever was configured before, every registration fails with `NotInitialized`. |
| `CredentialCodec.RegisterRecoversPassword` | pyauth.c:165-185 | The stored text is at least 64 characters long. It decodes to a payload of at least two blocks whose first block is the IV. That payload decrypts, under the key prepared from the same secret, to the registered password. |
| `CredentialCodec.HexLoopAsWritten` | pyauth.c:179-182 | The loop as written stores the hex of all 128 buffer bytes and then a NUL: 257 characters. |
| `CredentialCodec.HexLoopOverrunsBuffer` | pyauth.c:179-182 | Those 257 characters overrun the 256-byte `hex_encrypted_password` buffer by one. The stored text also carries the hex of every buffer byte after the payload. |

## Left out

- AES-128 itself (`AES_init_ctx` and the tiny-AES-c round functions) is not part of this model. The block cipher is an abstract invertible pair, and the round-trip theorems assume `Inverts(cipher)`.
- The `rand()` IV generation in `encrypt` (pyauth.c:33-39) is not modelled. The IV is a parameter. `register_account` always passes a non-null IV, so that branch never runs from it.
- `write_json` and cJSON serialisation (pyauth.c:90-127) are file I/O and a foreign library. The write is a caller-supplied verdict `store(record)`. The model does not describe the file's contents beyond the one key/value pair in `Record`. It does not model that each write replaces the whole file.
- The Python C-API glue (argument parsing, `PyErr_*`, the method table, module creation) is not modelled. The error kinds stand for its exceptions: `NotInitialized` for `PyErr_BadInternalCall`, `EmptyPath` and `EmptyField` for `ValueError`, and `StoreWriteError` for `RuntimeError`.
- The "Error encrypting password" branch of `register_account` (pyauth.c:173-176) is not modelled. `encrypt` always returns 0, so the branch is unreachable.
- Text encodings are not modelled. The username is a `string`. The password and secret are byte sequences, standing for the UTF-8 bytes Python hands over. Python refuses embedded NULs in these arguments, so `strlen` on the password is its length, and the model uses the length directly.
- Security properties are not modelled: IV unpredictability, padding-oracle resistance, and tamper detection are not functional properties of the code.
- Where the model departs from the C code on purpose:
  - A ciphertext that is empty or not a multiple of 16 bytes is `InvalidInput`. The C code only checks the 16-byte minimum.
  - A secret shorter than 16 bytes is `KeyTooShort`. The C code copies 16 bytes regardless (pyauth.c:167).
  - Payload lengths are explicit rather than measured with `strlen`.
  - The hex text covers the payload only, not the whole 128-byte buffer.
  - No 111-byte limit is placed on the password. `PayloadFitsOutputBuffer` states where the C buffer would overflow.
  - A path never set is `Unset`, and registering then is `NotInitialized`. In the C code, `strcmp` on the null `json_path` is undefined.
- CipherEngine.CStringLength: a buffer with no zero byte is measured to its end. The C `strlen` would read on past the buffer.
- CipherEngine.DecryptAsWritten: when the measured ciphertext is not a whole number of blocks, the outcome is only `PartialBlock`. What the tiny-AES CBC routine then does with the output buffer is not part of this model. On success the plaintext is the bytes before the NUL that `decrypt` writes; a caller reading it as a C string would also stop at an earlier zero byte.
- CipherEngine.Decrypt: it tells `InvalidInput` apart from `InvalidPadding`. The C `decrypt` returns the same code 1 for every failure (pyauth.c:67,76,80). `DecryptAsWritten` keeps the single code.
- CredentialCodec.Initialize: `Config.Configured(path)` holds a copy of the path. The C code keeps in `json_path` a pointer borrowed from the Python string argument (pyauth.c:131). That pointer dangles once the string is freed, yet `register_account` reads it later (pyauth.c:154,185). The model does not represent this lifetime.
- CredentialCodec.RegisterAccount: the IV is a parameter. In the C code it is an uninitialised stack array (pyauth.c:170), so the IV is whatever those bytes held. It is not random, and it is not chosen by the caller.
- Re-initialisation follows the code: every `initialize` call replaces the stored path, even a failing one. Nothing limits the codec to a single initialisation.
- Check order follows the code: the path check comes before the username/password check.

## Findings

Nothing in `pyauth.c` calls `decrypt`, and the Python method table (pyauth.c:194-198) does not export it. The first two findings are therefore in code no Python caller can reach today. They matter once something decrypts stored passwords.

| source | as written | input that shows it | evidently intended | confidence | as-written member | corrected member |
|---|---|---|---|---|---|---|
| pyauth.c:65 | `decrypt` measures the binary payload with `strlen`, so the payload is cut at its first zero byte | any IV with a zero byte, for example a first IV byte of 0: the measured length is under 16 and `decrypt` returns 1 | use the payload's real length | high, not executed | `CipherEngine.DecryptAsWritten`, `CipherEngine.ZeroIvByteBreaksDecryptAsWritten` | `CipherEngine.Decrypt`, `CipherEngine.RoundTrip` |
| pyauth.c:66-74 | the length gate admits a payload of exactly 16 bytes, then reads the pad byte at `output[-1]` | any 16-byte payload | reject a payload with no ciphertext block | high, not executed | `CipherEngine.DecryptAsWritten`, `CipherEngine.OneBlockPayloadReadsBeforeBuffer` | `CipherEngine.Decrypt` |
| pyauth.c:179-182 | the hex loop encodes all 128 bytes of `encrypted_password` into the 256-byte `hex_encrypted_password`, and the final `sprintf` writes its NUL at index 256 | any registration | encode only the payload, into a buffer of twice its length plus one | high, not executed | `CredentialCodec.HexLoopAsWritten`, `CredentialCodec.HexLoopOverrunsBuffer` | `Hex.HexEncode`, `CredentialCodec.RegisterRecoversPassword` |
