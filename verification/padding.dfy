/** PKCS#7 padding to the 16-byte block size (section 6.3 of RFC 5652): the
    padding step of `pad_input` and the padding check that ends `decrypt`. */
module Padding {
  import opened Bytes
  import opened Results

  /** Pads `input` with `count` copies of the byte `count`, where `count` in
      1..16 brings the length to the next multiple of 16; an input that is
      already a whole number of blocks gains a full block of 16s. */
  function Pad(input: seq<byte>): (padded: seq<byte>)
    ensures |padded| == (|input| / BlockSize + 1) * BlockSize
    ensures |padded| % BlockSize == 0 && |input| < |padded| <= |input| + BlockSize
    ensures |input| % BlockSize == 0 ==> |padded| == |input| + BlockSize
    ensures padded[..|input|] == input
    ensures forall i :: |input| <= i < |padded| ==> padded[i] as int == |padded| - |input|
  {
    var count := BlockSize - |input| % BlockSize;
    input + seq(count, _ => count as byte)
  }

  /** `data` is some prefix of length `n` followed by 1..16 bytes, each of which
      holds the number of those trailing bytes. */
  ghost predicate PaddedAt(data: seq<byte>, n: int) {
    && 0 <= n < |data|
    && |data| - n <= BlockSize
    && forall i :: n <= i < |data| ==> data[i] as int == |data| - n
  }

  /** Validates and strips PKCS#7 padding: the last byte `p` must lie in 1..16
      and the last `p` bytes must all equal `p`. Success is exactly the case in
      which `data` is a prefix followed by well-formed padding, and the result is
      that prefix. */
  function Unpad(data: seq<byte>): (r: Result<seq<byte>>)
    ensures r.Err? ==> r.error == InvalidPadding
    ensures r.Ok? ==> PaddedAt(data, |r.value|) && r.value == data[..|r.value|]
    ensures forall n {:trigger PaddedAt(data, n)} :: PaddedAt(data, n) ==> r == Ok(data[..n])
  {
    if |data| == 0 then Err(InvalidPadding)
    else
      var count := data[|data| - 1] as int;
      if count < 1 || count > BlockSize || count > |data| then Err(InvalidPadding)
      else if exists i :: |data| - count <= i < |data| && data[i] as int != count then Err(InvalidPadding)
      else Ok(data[..|data| - count])
  }

  /** The padding check accepts every output of `Pad` and strips exactly the
      bytes `Pad` added. */
  lemma UnpadPad(input: seq<byte>)
    ensures Unpad(Pad(input)) == Ok(input)
  {
  }

  /** On a whole number of blocks, the padding check succeeds with `input`
      exactly when the data is the padding of `input`: padding is the only way
      to produce data the check accepts. */
  lemma UnpadIffPad(data: seq<byte>, input: seq<byte>)
    requires |data| % BlockSize == 0
    ensures Unpad(data) == Ok(input) <==> data == Pad(input)
  {
    if data == Pad(input) {
      UnpadPad(input);
    }
    if Unpad(data) == Ok(input) {
      var n := |input|;
      assert PaddedAt(data, n);
      var padded := Pad(input);
      PaddedLength(data, n);
      forall i | 0 <= i < |data|
        ensures padded[i] == data[i]
      {
        if i < n {
          assert padded[i] == padded[..n][i] == data[..n][i];
        } else {
          assert padded[i] as int == data[i] as int;
        }
      }
    }
  }

  /** Well-formed padding on a whole number of blocks is exactly as long as
      `Pad` would make it. */
  lemma PaddedLength(data: seq<byte>, n: int)
    requires |data| % BlockSize == 0 && PaddedAt(data, n)
    ensures |Pad(data[..n])| == |data|
  {
  }
}
