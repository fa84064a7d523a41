/** Bytes, 16-byte blocks and keys, block-wise XOR, and the conversion between
    a flat byte sequence and the sequence of its blocks. */
module Bytes {

  type byte = bv8

  /** AES_BLOCK_SIZE and AES_KEY_SIZE of AES-128. */
  const BlockSize: nat := 16
  const KeySize: nat := 16

  type Block = s: seq<byte> | |s| == BlockSize
    witness [0, 0, 0, 0, 0, 0, 0, 0, 0, 0, 0, 0, 0, 0, 0, 0]

  type Key = s: seq<byte> | |s| == KeySize
    witness [0, 0, 0, 0, 0, 0, 0, 0, 0, 0, 0, 0, 0, 0, 0, 0]

  function Xor(a: Block, b: Block): (r: Block)
    ensures forall i :: 0 <= i < BlockSize ==> r[i] == a[i] ^ b[i]
  {
    seq(BlockSize, i requires 0 <= i < BlockSize => a[i] ^ b[i])
  }

  /** XOR-ing the same block twice gives the original block back. */
  lemma XorCancel(a: Block, b: Block)
    ensures Xor(Xor(a, b), b) == a
  {
  }

  /** The bytes of a sequence of blocks, in order. */
  function Join(blocks: seq<Block>): (s: seq<byte>)
    ensures |s| == BlockSize * |blocks|
  {
    if |blocks| == 0 then [] else blocks[0] + Join(blocks[1..])
  }

  /** Cuts a whole number of blocks into its blocks. */
  function Split(s: seq<byte>): (blocks: seq<Block>)
    requires |s| % BlockSize == 0
    ensures |blocks| == |s| / BlockSize
    ensures Join(blocks) == s
    decreases |s|
  {
    if |s| == 0 then []
    else
      var rest := Split(s[BlockSize..]);
      assert ([s[..BlockSize]] + rest)[1..] == rest;
      [s[..BlockSize]] + rest
  }

  lemma {:induction false} SplitJoin(blocks: seq<Block>)
    ensures Split(Join(blocks)) == blocks
  {
    if |blocks| > 0 {
      var s := Join(blocks);
      assert s[..BlockSize] == blocks[0];
      assert s[BlockSize..] == Join(blocks[1..]);
      SplitJoin(blocks[1..]);
    }
  }

  /** Joining a leading block onto a block sequence prepends its bytes. */
  lemma JoinCons(b: Block, blocks: seq<Block>)
    ensures Join([b] + blocks) == b + Join(blocks)
  {
  }
}
