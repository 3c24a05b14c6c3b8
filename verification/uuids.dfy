/**
 * The 16-byte identifiers of github.com/google/uuid as the source uses them:
 * the nil value, the canonical string form, `uuid.Parse`, and the byte order
 * PostgreSQL sorts `uuid` primary keys by (which decides what GORM's
 * `First` returns).
 */
module Uuids {
  import opened Wrappers
  import opened Hex
  import Text

  type Uuid = s: seq<byte> | |s| == 16 witness [0, 0, 0, 0, 0, 0, 0, 0, 0, 0, 0, 0, 0, 0, 0, 0]

  /** `uuid.Nil`: all sixteen bytes zero. */
  const Nil: Uuid := [0, 0, 0, 0, 0, 0, 0, 0, 0, 0, 0, 0, 0, 0, 0, 0]

  /** What `uuid.New()` returns: a random (version 4, RFC 4122 variant) identifier. */
  predicate IsVersion4(u: Uuid) {
    u[6] / 16 == 4 && u[8] / 64 == 2
  }

  /** Inserts the four dashes of the `8-4-4-4-12` layout into 32 hex digits. */
  function Dashed(h: string): (s: string)
    requires |h| == 32
    ensures |s| == 36
  {
    h[..8] + "-" + h[8..12] + "-" + h[12..16] + "-" + h[16..20] + "-" + h[20..]
  }

  /** Removes the dash positions of a 36-character string. */
  function Undash(s: string): (h: string)
    requires |s| == 36
    ensures |h| == 32
  {
    s[..8] + s[9..13] + s[14..18] + s[19..23] + s[24..]
  }

  predicate HasDashes(s: string)
    requires |s| >= 36
  {
    s[8] == '-' && s[13] == '-' && s[18] == '-' && s[23] == '-'
  }

  lemma UndashDashed(h: string)
    requires |h| == 32
    ensures HasDashes(Dashed(h))
    ensures Undash(Dashed(h)) == h
  {
    var s := Dashed(h);
    assert s[..8] == h[..8];
    assert s[9..13] == h[8..12];
    assert s[14..18] == h[12..16];
    assert s[19..23] == h[16..20];
    assert s[24..] == h[20..];
    assert h == h[..8] + h[8..12] + h[12..16] + h[16..20] + h[20..];
  }

  /** `UUID.String()`: lower-case hex in the `8-4-4-4-12` layout. */
  function ToString(u: Uuid): (s: string)
    ensures |s| == 36 && HasDashes(s)
    ensures Undash(s) == Hex.Encode(u)
  {
    UndashDashed(Hex.Encode(u));
    Dashed(Hex.Encode(u))
  }

  /** The value of a hex digit in either case (the `xvalues` table of google/uuid). */
  function HexValue(c: char): (v: Option<int>)
    ensures v.Some? ==> 0 <= v.value < 16
  {
    if '0' <= c <= '9' then Some(c as int - '0' as int)
    else if 'a' <= c <= 'f' then Some(c as int - 'a' as int + 10)
    else if 'A' <= c <= 'F' then Some(c as int - 'A' as int + 10)
    else None
  }

  /** `xtob`: two hex digits to one byte. */
  function ParseByte(hi: char, lo: char): Option<byte> {
    match (HexValue(hi), HexValue(lo))
    case (Some(a), Some(b)) => Some(a * 16 + b)
    case _ => None
  }

  /** Reads pairs of hex digits in either case into bytes. */
  function ParseHex(s: string): (r: Option<seq<byte>>)
    requires |s| % 2 == 0
    ensures r.Some? ==> |r.value| == |s| / 2
    decreases |s|
  {
    if |s| == 0 then Some([])
    else
      match ParseByte(s[0], s[1])
      case None => None
      case Some(b) =>
        match ParseHex(s[2..])
        case None => None
        case Some(rest) => Some([b] + rest)
  }

  /** The dashed form: dashes at 8, 13, 18 and 23, hex pairs elsewhere; characters past 36 are not read. */
  function ParseDashed(s: string): (r: Option<Uuid>)
    requires |s| >= 36
  {
    if !HasDashes(s) then None
    else
      match ParseHex(Undash(s[..36]))
      case None => None
      case Some(bs) => Some(bs)
  }

  /**
   * `uuid.Parse`: accepts the 36-character dashed form, the same prefixed by
   * `urn:uuid:` (any case), the same with one extra character on each side
   * (the braces are not checked), and 32 bare hex digits; any other length fails.
   */
  function Parse(s: string): (r: Option<Uuid>)
    ensures r.Some? ==> |s| == 32 || |s| == 36 || |s| == 38 || |s| == 45
    ensures |s| == 36 && r.Some? ==> HasDashes(s)
  {
    if |s| == 32 then
      match ParseHex(s)
      case None => None
      case Some(bs) => Some(bs)
    else if |s| == 36 then ParseDashed(s)
    else if |s| == 45 then
      if Text.EqualFoldAscii(s[..9], "urn:uuid:") then ParseDashed(s[9..]) else None
    else if |s| == 38 then ParseDashed(s[1..])
    else None
  }

  lemma {:induction false} ParseHexEncode(bs: seq<byte>)
    ensures ParseHex(Hex.Encode(bs)) == Some(bs)
    decreases |bs|
  {
    if |bs| > 0 {
      var s := Hex.Encode(bs);
      ParseHexEncode(bs[1..]);
      Hex.EncodePrefix(bs, 1);
      assert s[2..] == Hex.Encode(bs[1..]) by {
        var t := Hex.Encode(bs[1..]);
        forall j | 0 <= j < |t|
          ensures s[2..][j] == t[j]
        {
          var i := j / 2;
          assert bs[1..][i] == bs[i + 1];
          if j % 2 == 0 {
            assert s[2 * (i + 1)] == Digit(bs[i + 1] / 16);
          } else {
            assert s[2 * (i + 1) + 1] == Digit(bs[i + 1] % 16);
          }
        }
      }
      assert s[0] == Digit(bs[0] / 16) && s[1] == Digit(bs[0] % 16);
      assert ParseByte(s[0], s[1]) == Some(bs[0]);
      assert [bs[0]] + bs[1..] == bs;
    }
  }

  /** Parsing the canonical string of an identifier gives the identifier back. */
  lemma ParseToString(u: Uuid)
    ensures Parse(ToString(u)) == Some(u)
  {
    var s := ToString(u);
    assert s[..36] == s;
    ParseHexEncode(u);
  }

  /** Distinct identifiers have distinct canonical strings. */
  lemma ToStringInjective(a: Uuid, b: Uuid)
    requires ToString(a) == ToString(b)
    ensures a == b
  {
    ParseToString(a);
    ParseToString(b);
  }

  /** Lexicographic byte order: the order PostgreSQL compares `uuid` values in. */
  predicate Below(a: seq<byte>, b: seq<byte>)
    requires |a| == |b|
    decreases |a|
  {
    |a| == 0 || a[0] < b[0] || (a[0] == b[0] && Below(a[1..], b[1..]))
  }

  lemma {:induction false} BelowAntisymmetric(a: seq<byte>, b: seq<byte>)
    requires |a| == |b| && Below(a, b) && Below(b, a)
    ensures a == b
    decreases |a|
  {
    if |a| > 0 {
      BelowAntisymmetric(a[1..], b[1..]);
      assert a == [a[0]] + a[1..] && b == [b[0]] + b[1..];
    }
  }

  lemma {:induction false} BelowTotal(a: seq<byte>, b: seq<byte>)
    requires |a| == |b|
    ensures Below(a, b) || Below(b, a)
    decreases |a|
  {
    if |a| > 0 {
      BelowTotal(a[1..], b[1..]);
    }
  }

  lemma {:induction false} BelowTransitive(a: seq<byte>, b: seq<byte>, c: seq<byte>)
    requires |a| == |b| == |c| && Below(a, b) && Below(b, c)
    ensures Below(a, c)
    decreases |a|
  {
    if |a| > 0 && a[0] == b[0] && b[0] == c[0] {
      BelowTransitive(a[1..], b[1..], c[1..]);
    }
  }

  predicate IsLeast(m: Uuid, ids: set<Uuid>) {
    m in ids && forall x :: x in ids ==> Below(m, x)
  }

  lemma {:induction false} LeastExists(ids: set<Uuid>)
    requires ids != {}
    ensures exists m: Uuid :: IsLeast(m, ids)
    decreases |ids|
  {
    var x :| x in ids;
    if ids == {x} {
      BelowTotal(x, x);
      assert IsLeast(x, ids);
    } else {
      var rest := ids - {x};
      LeastExists(rest);
      var m: Uuid :| IsLeast(m, rest);
      BelowTotal(m, x);
      if Below(m, x) {
        assert IsLeast(m, ids);
      } else {
        forall y | y in ids
          ensures Below(x, y)
        {
          if y != x {
            BelowTransitive(x, m, y);
          } else {
            BelowTotal(x, x);
          }
        }
        assert IsLeast(x, ids);
      }
    }
  }

  lemma LeastUnique(ids: set<Uuid>)
    ensures forall a: Uuid, b: Uuid :: IsLeast(a, ids) && IsLeast(b, ids) ==> a == b
  {
    forall a: Uuid, b: Uuid | IsLeast(a, ids) && IsLeast(b, ids)
      ensures a == b
    {
      BelowAntisymmetric(a, b);
    }
  }

  /** The smallest identifier of a non-empty set. */
  function Least(ids: set<Uuid>): (m: Uuid)
    requires ids != {}
    ensures m in ids
    ensures forall x :: x in ids ==> Below(m, x)
  {
    LeastExists(ids);
    LeastUnique(ids);
    var m: Uuid :| IsLeast(m, ids);
    m
  }
}
