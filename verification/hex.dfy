/** Bytes and the lower-case hexadecimal encoding of Go's `hex.EncodeToString`. */
module Hex {

  /** One octet. */
  type byte = x: int | 0 <= x < 256

  predicate IsLowerHexDigit(c: char) {
    '0' <= c <= '9' || 'a' <= c <= 'f'
  }

  /** Every character of `s` is one of `0-9a-f`. */
  predicate IsLowerHex(s: string) {
    forall i :: 0 <= i < |s| ==> IsLowerHexDigit(s[i])
  }

  /** The value of a lower-case hex digit. */
  function DigitValue(c: char): (n: int)
    requires IsLowerHexDigit(c)
    ensures 0 <= n < 16
  {
    if c <= '9' then c as int - '0' as int else c as int - 'a' as int + 10
  }

  /** The digit of `0123456789abcdef` at position `n`. */
  function Digit(n: int): (c: char)
    requires 0 <= n < 16
    ensures IsLowerHexDigit(c)
    ensures DigitValue(c) == n
  {
    if n < 10 then ('0' as int + n) as char else ('a' as int + n - 10) as char
  }

  /** Byte `i` of the input is written as the two digits at `2i` and `2i+1`, high nibble first. */
  function Encode(bs: seq<byte>): (s: string)
    ensures |s| == 2 * |bs|
    ensures IsLowerHex(s)
    ensures forall i :: 0 <= i < |bs| ==> s[2 * i] == Digit(bs[i] / 16) && s[2 * i + 1] == Digit(bs[i] % 16)
    decreases |bs|
  {
    if |bs| == 0 then ""
    else
      var rest := Encode(bs[1..]);
      assert forall i :: 1 <= i < |bs| ==> bs[1..][i - 1] == bs[i];
      [Digit(bs[0] / 16), Digit(bs[0] % 16)] + rest
  }

  /** Reads a lower-case hex string back into bytes, two digits per byte. */
  function Decode(s: string): (bs: seq<byte>)
    requires |s| % 2 == 0 && IsLowerHex(s)
    ensures |bs| == |s| / 2
  {
    seq(|s| / 2, i requires 0 <= i < |s| / 2 => DigitValue(s[2 * i]) * 16 + DigitValue(s[2 * i + 1]))
  }

  /** Decoding undoes encoding. */
  lemma DecodeEncode(bs: seq<byte>)
    ensures Decode(Encode(bs)) == bs
  {
    var s := Encode(bs);
    var d := Decode(s);
    forall i | 0 <= i < |bs|
      ensures d[i] == bs[i]
    {
      assert s[2 * i] == Digit(bs[i] / 16) && s[2 * i + 1] == Digit(bs[i] % 16);
      DigitPair(bs[i]);
    }
  }

  /** The two digits written for a byte read back as that byte. */
  lemma DigitPair(b: byte)
    ensures DigitValue(Digit(b / 16)) * 16 + DigitValue(Digit(b % 16)) == b
  {
  }

  /** Distinct byte strings have distinct encodings. */
  lemma EncodeInjective(a: seq<byte>, b: seq<byte>)
    requires Encode(a) == Encode(b)
    ensures a == b
  {
    DecodeEncode(a);
    DecodeEncode(b);
  }

  /** The first `2n` digits encode exactly the first `n` bytes. */
  lemma EncodePrefix(bs: seq<byte>, n: nat)
    requires n <= |bs|
    ensures Encode(bs)[..2 * n] == Encode(bs[..n])
  {
    var s := Encode(bs);
    var t := Encode(bs[..n]);
    forall j | 0 <= j < 2 * n
      ensures s[j] == t[j]
    {
      var i := j / 2;
      assert bs[..n][i] == bs[i];
      if j % 2 == 0 {
        assert j == 2 * i;
      } else {
        assert j == 2 * i + 1;
      }
    }
  }
}
