/** The padded standard alphabet of RFC 4648 section 4 (Go's `base64.StdEncoding`). */
module Base64 {
  import opened Hex

  const Alphabet: string := "ABCDEFGHIJKLMNOPQRSTUVWXYZabcdefghijklmnopqrstuvwxyz0123456789+/"

  predicate IsBase64Char(c: char) {
    c in Alphabet || c == '='
  }

  function Symbol(n: int): (c: char)
    requires 0 <= n < 64
    ensures IsBase64Char(c)
  {
    Alphabet[n]
  }

  /** The four symbols of one full group of three bytes. */
  function Quad(b0: byte, b1: byte, b2: byte): (s: string)
    ensures |s| == 4
  {
    var x0 := b0 / 4;
    var x1 := (b0 % 4) * 16 + b1 / 16;
    var x2 := (b1 % 16) * 4 + b2 / 64;
    var x3 := b2 % 64;
    assert x1 < 64 && x2 < 64;
    [Symbol(x0), Symbol(x1), Symbol(x2), Symbol(x3)]
  }

  /** The padded symbols of a final group of one or two bytes. */
  function Tail(bs: seq<byte>): (s: string)
    requires 1 <= |bs| <= 2
    ensures |s| == 4
  {
    if |bs| == 1 then
      [Symbol(bs[0] / 4), Symbol((bs[0] % 4) * 16), '=', '=']
    else
      var x1 := (bs[0] % 4) * 16 + bs[1] / 16;
      assert x1 < 64;
      [Symbol(bs[0] / 4), Symbol(x1), Symbol((bs[1] % 16) * 4), '=']
  }

  /** Every three input bytes become four symbols; a short final group is padded with `=`. */
  function Encode(bs: seq<byte>): (s: string)
    ensures |s| == 4 * ((|bs| + 2) / 3)
    decreases |bs|
  {
    if |bs| == 0 then ""
    else if |bs| <= 2 then Tail(bs)
    else
      var rest := Encode(bs[3..]);
      assert (|bs| + 2) / 3 == (|bs[3..]| + 2) / 3 + 1;
      Quad(bs[0], bs[1], bs[2]) + rest
  }
}
