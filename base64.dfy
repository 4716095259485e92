/**
 * The URL- and filename-safe base 64 alphabet of section 5 of RFC 4648, with
 * `=` padding, as `base64.urlsafe_b64encode` writes it and
 * `base64.urlsafe_b64decode` reads it.
 */
module Base64 {
  import opened Wrappers

  /** The character that stands for the 6-bit value `n`. */
  function IndexToChar(n: int): (c: char)
    requires 0 <= n < 64
  {
    if n < 26 then ('A' as int + n) as char
    else if n < 52 then ('a' as int + n - 26) as char
    else if n < 62 then ('0' as int + n - 52) as char
    else if n == 62 then '-'
    else '_'
  }

  /** The 6-bit value of an alphabet character; `None` outside the alphabet (and for `=`). */
  function CharToIndex(c: char): (r: Option<int>)
    ensures r.Some? ==> 0 <= r.value < 64 && IndexToChar(r.value) == c
  {
    if 'A' <= c <= 'Z' then Some(c as int - 'A' as int)
    else if 'a' <= c <= 'z' then Some(c as int - 'a' as int + 26)
    else if '0' <= c <= '9' then Some(c as int - '0' as int + 52)
    else if c == '-' then Some(62)
    else if c == '_' then Some(63)
    else None
  }

  lemma IndexRoundTrip(n: int)
    requires 0 <= n < 64
    ensures CharToIndex(IndexToChar(n)) == Some(n)
  {
  }

  /** Four characters for three bytes. */
  function EncodeTriple(b0: byte, b1: byte, b2: byte): string
  {
    [ IndexToChar(b0 as int / 4),
      IndexToChar((b0 as int % 4) * 16 + b1 as int / 16),
      IndexToChar((b1 as int % 16) * 4 + b2 as int / 64),
      IndexToChar(b2 as int % 64) ]
  }

  /** Python's `urlsafe_b64encode`: every three bytes become four characters; a
      final group of one or two bytes is padded with `=` to four characters. */
  function Encode(b: seq<byte>): (s: string)
    ensures |s| % 4 == 0 && (|s| == 0 <==> |b| == 0)
    decreases |b|
  {
    if |b| == 0 then []
    else if |b| == 1 then
      [IndexToChar(b[0] as int / 4), IndexToChar((b[0] as int % 4) * 16), '=', '=']
    else if |b| == 2 then
      [IndexToChar(b[0] as int / 4), IndexToChar((b[0] as int % 4) * 16 + b[1] as int / 16),
       IndexToChar((b[1] as int % 16) * 4), '=']
    else EncodeTriple(b[0], b[1], b[2]) + Encode(b[3..])
  }

  /** The bytes of one group of four characters, of which the last two may be
      padding.  As in CPython, the bits below the last whole byte are dropped. */
  function DecodeQuad(q: string): (r: Option<seq<byte>>)
    requires |q| == 4
    ensures r.Some? ==> 1 <= |r.value| <= 3
    ensures r.Some? && |r.value| < 3 ==> q[3] == '='
  {
    var c0, c1, c2, c3 := CharToIndex(q[0]), CharToIndex(q[1]), CharToIndex(q[2]), CharToIndex(q[3]);
    if c0.None? || c1.None? then None
    else if c2.Some? && c3.Some? then
      Some([(c0.value * 4 + c1.value / 16) as byte,
            ((c1.value % 16) * 16 + c2.value / 4) as byte,
            ((c2.value % 4) * 64 + c3.value) as byte])
    else if c2.Some? && q[3] == '=' then
      Some([(c0.value * 4 + c1.value / 16) as byte, ((c1.value % 16) * 16 + c2.value / 4) as byte])
    else if q[2] == '=' && q[3] == '=' then
      Some([(c0.value * 4 + c1.value / 16) as byte])
    else None
  }

  /** A strict reading of a padded URL-safe token: whole groups of four
      characters of the URL-safe alphabet, with padding only in the last
      group.  `None` where `urlsafe_b64decode` raises, and also on tokens it
      cleans up and accepts: CPython reads `+` and `/`, skips other
      characters and stops at the first complete padding. */
  function Decode(s: string): (r: Option<seq<byte>>)
    ensures r.Some? ==> |s| % 4 == 0
    decreases |s|
  {
    if |s| == 0 then Some([])
    else if |s| < 4 then None
    else match DecodeQuad(s[..4])
      case None => None
      case Some(q) =>
        if |s| == 4 then Some(q)
        else if |q| < 3 then None
        else match Decode(s[4..])
          case None => None
          case Some(rest) => Some(q + rest)
  }

  /** Splitting a byte into a high and a low part and joining them gives it back. */
  lemma Join(hi: int, lo: int, m: int)
    requires m == 4 || m == 16 || m == 64
    requires 0 <= lo < m && 0 <= hi
    ensures (hi * m + lo) / m == hi && (hi * m + lo) % m == lo
  {
  }

  /** The 6-bit groups of three bytes give the three bytes back. */
  lemma TripleArithmetic(b0: int, b1: int, b2: int)
    requires 0 <= b0 < 256 && 0 <= b1 < 256 && 0 <= b2 < 256
    ensures var c0, c1, c2, c3 := b0 / 4, (b0 % 4) * 16 + b1 / 16, (b1 % 16) * 4 + b2 / 64, b2 % 64;
      c0 * 4 + c1 / 16 == b0 && (c1 % 16) * 16 + c2 / 4 == b1 && (c2 % 4) * 64 + c3 == b2
  {
    Join(b0 % 4, b1 / 16, 16);
    Join(b1 % 16, b2 / 64, 4);
  }

  lemma TripleRoundTrip(b0: byte, b1: byte, b2: byte)
    ensures DecodeQuad(EncodeTriple(b0, b1, b2)) == Some([b0, b1, b2])
  {
    var c0, c1, c2, c3 := b0 as int / 4, (b0 as int % 4) * 16 + b1 as int / 16, (b1 as int % 16) * 4 + b2 as int / 64, b2 as int % 64;
    IndexRoundTrip(c0);
    IndexRoundTrip(c1);
    IndexRoundTrip(c2);
    IndexRoundTrip(c3);
    TripleArithmetic(b0 as int, b1 as int, b2 as int);
    assert EncodeTriple(b0, b1, b2) == [IndexToChar(c0), IndexToChar(c1), IndexToChar(c2), IndexToChar(c3)];
  }

  lemma OneByteRoundTrip(b0: byte)
    ensures DecodeQuad(Encode([b0])) == Some([b0])
  {
    var c0, c1 := b0 as int / 4, (b0 as int % 4) * 16;
    IndexRoundTrip(c0);
    IndexRoundTrip(c1);
    TripleArithmetic(b0 as int, 0, 0);
    assert Encode([b0]) == [IndexToChar(c0), IndexToChar(c1), '=', '='];
  }

  lemma TwoByteRoundTrip(b0: byte, b1: byte)
    ensures DecodeQuad(Encode([b0, b1])) == Some([b0, b1])
  {
    var c0, c1, c2 := b0 as int / 4, (b0 as int % 4) * 16 + b1 as int / 16, (b1 as int % 16) * 4;
    IndexRoundTrip(c0);
    IndexRoundTrip(c1);
    IndexRoundTrip(c2);
    TripleArithmetic(b0 as int, b1 as int, 0);
    assert Encode([b0, b1]) == [IndexToChar(c0), IndexToChar(c1), IndexToChar(c2), '='];
  }

  /** A full group in front of a decodable token adds its three bytes in front. */
  lemma DecodeFullGroup(t: string, rest: string)
    requires |t| == 4 && DecodeQuad(t).Some? && |DecodeQuad(t).value| == 3
    requires Decode(rest).Some?
    ensures Decode(t + rest) == Some(DecodeQuad(t).value + Decode(rest).value)
  {
    var s := t + rest;
    assert s[..4] == t;
    assert s[4..] == rest;
    if rest == [] {
      assert DecodeQuad(t).value + [] == DecodeQuad(t).value;
    }
  }

  /** A final group of one or two bytes decodes back. */
  lemma DecodeEncodeShort(b: seq<byte>)
    requires 1 <= |b| <= 2
    ensures Decode(Encode(b)) == Some(b)
  {
    var s := Encode(b);
    assert s[..4] == s;
    if |b| == 1 {
      OneByteRoundTrip(b[0]);
      assert b == [b[0]];
    } else {
      TwoByteRoundTrip(b[0], b[1]);
      assert b == [b[0], b[1]];
    }
  }

  /** Three bytes in front of a round-tripping tail round-trip too. */
  lemma DecodeEncodeStep(b0: byte, b1: byte, b2: byte, tail: seq<byte>)
    requires Decode(Encode(tail)) == Some(tail)
    ensures Decode(Encode([b0, b1, b2] + tail)) == Some([b0, b1, b2] + tail)
  {
    var b := [b0, b1, b2] + tail;
    assert b[0] == b0 && b[1] == b1 && b[2] == b2 && b[3..] == tail;
    var t, e := EncodeTriple(b0, b1, b2), Encode(tail);
    assert Encode(b) == t + e;
    TripleRoundTrip(b0, b1, b2);
    DecodeFullGroup(t, e);
  }

  lemma SplitThree(b: seq<byte>)
    requires |b| > 2
    ensures b == [b[0], b[1], b[2]] + b[3..]
  {
  }

  /** Decoding undoes encoding for every byte string. */
  lemma {:induction false} DecodeEncode(b: seq<byte>)
    ensures Decode(Encode(b)) == Some(b)
    decreases |b|
  {
    if 1 <= |b| <= 2 {
      DecodeEncodeShort(b);
    } else if |b| > 2 {
      DecodeEncode(b[3..]);
      DecodeEncodeStep(b[0], b[1], b[2], b[3..]);
      SplitThree(b);
    }
  }
}
