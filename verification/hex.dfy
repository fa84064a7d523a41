/** Lowercase hexadecimal text for binary payloads, the `%02x` loop of
    `register_account`, and its inverse. */
module Hex {
  import opened Bytes
  import opened Results

  predicate IsLowerHexDigit(c: char) {
    '0' <= c <= '9' || 'a' <= c <= 'f'
  }

  /** The digit `%x` prints for a nibble. */
  function HexDigit(nibble: byte): (c: char)
    requires nibble < 16
    ensures IsLowerHexDigit(c)
  {
    if nibble < 10 then ('0' as int + nibble as int) as char
    else ('a' as int + nibble as int - 10) as char
  }

  /** The nibble a lowercase hex digit stands for; no other character is a
      digit. */
  function DigitValue(c: char): (r: Option<byte>)
    ensures r.Some? <==> IsLowerHexDigit(c)
    ensures r.Some? ==> r.value < 16 && HexDigit(r.value) == c
  {
    if '0' <= c <= '9' then Some((c as int - '0' as int) as byte)
    else if 'a' <= c <= 'f' then Some((c as int - 'a' as int + 10) as byte)
    else None
  }

  lemma DigitValueOfHexDigit(nibble: byte)
    requires nibble < 16
    ensures DigitValue(HexDigit(nibble)) == Some(nibble)
  {
  }

  lemma NibbleSplit(b: byte)
    ensures b >> 4 < 16 && b & 15 < 16
    ensures ((b >> 4) << 4) | (b & 15) == b
  {
  }

  lemma NibbleJoin(hi: byte, lo: byte)
    requires hi < 16 && lo < 16
    ensures ((hi << 4) | lo) >> 4 == hi && ((hi << 4) | lo) & 15 == lo
  {
  }

  /** The two digits of a byte read back as that byte. */
  lemma DecodeDigitPair(b: byte)
    ensures b >> 4 < 16 && b & 15 < 16
    ensures DigitValue(HexDigit(b >> 4)) == Some(b >> 4)
    ensures DigitValue(HexDigit(b & 15)) == Some(b & 15)
    ensures (DigitValue(HexDigit(b >> 4)).value << 4) | DigitValue(HexDigit(b & 15)).value == b
  {
    NibbleSplit(b);
    DigitValueOfHexDigit(b >> 4);
    DigitValueOfHexDigit(b & 15);
  }

  /** The two `%02x` digits of a byte, high nibble first. */
  function ByteDigits(b: byte): (digits: string)
    ensures |digits| == 2 && IsLowerHexDigit(digits[0]) && IsLowerHexDigit(digits[1])
  {
    [HexDigit(b >> 4), HexDigit(b & 15)]
  }

  /** Each byte becomes exactly two lowercase hex digits, high nibble first,
      with no separators: byte `i` occupies characters `2i` and `2i + 1`. */
  function HexEncode(bytes: seq<byte>): (s: string)
    ensures |s| == 2 * |bytes|
    ensures forall i :: 0 <= i < |bytes| ==>
      s[2 * i] == ByteDigits(bytes[i])[0] && s[2 * i + 1] == ByteDigits(bytes[i])[1]
    ensures forall j :: 0 <= j < |s| ==> IsLowerHexDigit(s[j])
  {
    if |bytes| == 0 then []
    else ByteDigits(bytes[0]) + HexEncode(bytes[1..])
  }

  /** Reads back a string of lowercase hex digit pairs; anything else is
      `None`. */
  function HexDecode(s: string): (r: Option<seq<byte>>)
    ensures r.Some? ==> 2 * |r.value| == |s|
    decreases |s|
  {
    if |s| == 0 then Some([])
    else if |s| == 1 then None
    else
      match (DigitValue(s[0]), DigitValue(s[1]), HexDecode(s[2..]))
      case (Some(hi), Some(lo), Some(rest)) => Some([(hi << 4) | lo] + rest)
      case _ => None
  }

  /** Decoding the hex text of a payload gives the payload back. */
  lemma {:induction false} HexDecodeEncode(bytes: seq<byte>)
    ensures HexDecode(HexEncode(bytes)) == Some(bytes)
  {
    if |bytes| > 0 {
      HexDecodeEncode(bytes[1..]);
      DecodeEncodedByte(bytes[0], bytes[1..]);
      FirstAndRest(bytes);
    }
  }

  /** Every string that decodes is the hex text of what it decodes to: the
      encoding is the only text the decoder accepts. */
  lemma {:induction false} HexEncodeDecode(s: string, bytes: seq<byte>)
    requires HexDecode(s) == Some(bytes)
    ensures HexEncode(bytes) == s
  {
    if |s| > 0 {
      HexDecodeCons(s);
      var hi := DigitValue(s[0]).value;
      var lo := DigitValue(s[1]).value;
      var rest := HexDecode(s[2..]).value;
      EncodeDigitPair(hi, lo);
      HexEncodeDecode(s[2..], rest);
      HexEncodeCons((hi << 4) | lo, rest);
      FirstTwo(s);
    }
  }

  /** Hex text of a concatenation is the concatenation of the hex texts. */
  lemma {:induction false} HexEncodeConcat(a: seq<byte>, b: seq<byte>)
    ensures HexEncode(a + b) == HexEncode(a) + HexEncode(b)
  {
    if |a| > 0 {
      assert a + b == [a[0]] + (a[1..] + b);
      HexEncodeCons(a[0], a[1..] + b);
      HexEncodeConcat(a[1..], b);
      assert a == [a[0]] + a[1..];
      HexEncodeCons(a[0], a[1..]);
    } else {
      assert a + b == b;
    }
  }

  lemma HexEncodeCons(b: byte, rest: seq<byte>)
    ensures HexEncode([b] + rest) == ByteDigits(b) + HexEncode(rest)
  {
    assert ([b] + rest)[1..] == rest;
  }

  /** Two digits in front of decodable text decode to one more byte. */
  lemma HexDecodePair(c0: char, c1: char, rest: string)
    requires DigitValue(c0).Some? && DigitValue(c1).Some? && HexDecode(rest).Some?
    ensures HexDecode([c0, c1] + rest)
      == Some([(DigitValue(c0).value << 4) | DigitValue(c1).value] + HexDecode(rest).value)
  {
    var s := [c0, c1] + rest;
    assert s[0] == c0 && s[1] == c1 && s[2..] == rest;
  }

  /** How a decodable string of at least two characters decodes. */
  lemma HexDecodeCons(s: string)
    requires |s| >= 2 && HexDecode(s).Some?
    ensures DigitValue(s[0]).Some? && DigitValue(s[1]).Some? && HexDecode(s[2..]).Some?
    ensures HexDecode(s).value
      == [(DigitValue(s[0]).value << 4) | DigitValue(s[1]).value] + HexDecode(s[2..]).value
  {
  }

  /** One more byte in front of a payload whose hex text decodes. */
  lemma DecodeEncodedByte(b: byte, rest: seq<byte>)
    requires HexDecode(HexEncode(rest)) == Some(rest)
    ensures HexDecode(ByteDigits(b) + HexEncode(rest)) == Some([b] + rest)
  {
    DecodeDigitPair(b);
    HexDecodePair(HexDigit(b >> 4), HexDigit(b & 15), HexEncode(rest));
  }

  /** The byte two digits decode to prints as those two digits. */
  lemma EncodeDigitPair(hi: byte, lo: byte)
    requires hi < 16 && lo < 16
    ensures ByteDigits((hi << 4) | lo) == [HexDigit(hi), HexDigit(lo)]
  {
    NibbleJoin(hi, lo);
  }

  lemma FirstAndRest(bytes: seq<byte>)
    requires |bytes| > 0
    ensures [bytes[0]] + bytes[1..] == bytes
  {
  }

  lemma FirstTwo(s: string)
    requires |s| >= 2
    ensures s == [s[0], s[1]] + s[2..]
  {
  }
}
