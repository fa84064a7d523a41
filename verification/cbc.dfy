/** Cipher block chaining over an abstract 16-byte block cipher, as defined in
    section 6.2 of NIST SP 800-38A:
      encryption  C_1 = E(P_1 xor IV),  C_j = E(P_j xor C_(j-1))
      decryption  P_1 = D(C_1) xor IV,  P_j = D(C_j) xor C_(j-1)
    The AES block transform itself is not part of this model: a cipher is any
    pair of block functions, and the round trip needs only that the second
    undoes the first. */
module Cbc {
  import opened Bytes

  datatype BlockCipher = BlockCipher(
    encrypt: (Key, Block) -> Block,
    decrypt: (Key, Block) -> Block)

  /** Decrypting under a key undoes encrypting under the same key. */
  ghost predicate Inverts(cipher: BlockCipher) {
    forall key: Key, b: Block :: cipher.decrypt(key, cipher.encrypt(key, b)) == b
  }

  /** CBC encryption, block after block, carrying the previous ciphertext block
      forward as the next chaining value. Block i of the result is the
      encryption of plaintext block i XOR-ed with the block before it in
      `[iv] + result`. */
  function CbcEncrypt(cipher: BlockCipher, key: Key, iv: Block, plain: seq<Block>): (cipherBlocks: seq<Block>)
    ensures |cipherBlocks| == |plain|
    ensures forall i :: 0 <= i < |plain| ==>
      cipherBlocks[i] == cipher.encrypt(key, Xor(plain[i], ([iv] + cipherBlocks)[i]))
    decreases |plain|
  {
    if |plain| == 0 then []
    else
      var first := cipher.encrypt(key, Xor(plain[0], iv));
      [first] + CbcEncrypt(cipher, key, first, plain[1..])
  }

  /** CBC decryption, block after block, keeping the previous ciphertext block
      as the value to XOR into the next decrypted block. Block i of the result
      is the decryption of ciphertext block i XOR-ed with the block before it
      in `[iv] + cipherBlocks`. */
  function CbcDecrypt(cipher: BlockCipher, key: Key, iv: Block, cipherBlocks: seq<Block>): (plain: seq<Block>)
    ensures |plain| == |cipherBlocks|
    ensures forall i :: 0 <= i < |cipherBlocks| ==>
      plain[i] == Xor(cipher.decrypt(key, cipherBlocks[i]), ([iv] + cipherBlocks)[i])
    decreases |cipherBlocks|
  {
    if |cipherBlocks| == 0 then []
    else
      [Xor(cipher.decrypt(key, cipherBlocks[0]), iv)]
        + CbcDecrypt(cipher, key, cipherBlocks[0], cipherBlocks[1..])
  }

  /** CBC decryption under the same key and IV recovers every plaintext
      block, provided the block cipher's decryption undoes its encryption. */
  lemma CbcRoundTrip(cipher: BlockCipher, key: Key, iv: Block, plain: seq<Block>)
    requires Inverts(cipher)
    ensures CbcDecrypt(cipher, key, iv, CbcEncrypt(cipher, key, iv, plain)) == plain
  {
    var cipherBlocks := CbcEncrypt(cipher, key, iv, plain);
    var recovered := CbcDecrypt(cipher, key, iv, cipherBlocks);
    forall i | 0 <= i < |plain|
      ensures recovered[i] == plain[i]
    {
      var chain := ([iv] + cipherBlocks)[i];
      XorCancel(plain[i], chain);
    }
  }
}
