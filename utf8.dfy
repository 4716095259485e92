/**
 * UTF-8 as RFC 3629 defines it: `str.encode("utf-8")` and the strict
 * `bytes.decode("utf-8")`, which refuses overlong forms, encoded surrogates,
 * code points above U+10FFFF, stray continuation bytes and truncated sequences.
 */
module Utf8 {
  import opened Wrappers

  /** The bytes of one character: one to four bytes, by code point range. */
  function EncodeChar(c: char): (b: seq<byte>)
    ensures 1 <= |b| <= 4
  {
    var n := c as int;
    if n < 0x80 then [n as byte]
    else if n < 0x800 then [(0xC0 + n / 64) as byte, (0x80 + n % 64) as byte]
    else if n < 0x10000 then
      [(0xE0 + n / 4096) as byte, (0x80 + (n / 64) % 64) as byte, (0x80 + n % 64) as byte]
    else
      [(0xF0 + n / 262144) as byte, (0x80 + (n / 4096) % 64) as byte,
       (0x80 + (n / 64) % 64) as byte, (0x80 + n % 64) as byte]
  }

  /** `str.encode("utf-8")`: at least one byte per character, and exactly
      one for ASCII text. */
  function Encode(s: string): (b: seq<byte>)
    ensures |b| >= |s|
    ensures (forall i :: 0 <= i < |s| ==> s[i] as int < 0x80) ==> |b| == |s|
  {
    if s == [] then [] else EncodeChar(s[0]) + Encode(s[1..])
  }

  predicate IsContinuation(x: byte) { 0x80 <= x < 0xC0 }

  /** The character at the front of `b` and how many bytes it takes, or `None`
      where the front is not a well-formed sequence of Table 3-7 of the Unicode
      standard. */
  function DecodeChar(b: seq<byte>): (r: Option<(char, nat)>)
    ensures r.Some? ==> 1 <= r.value.1 <= |b|
  {
    if b == [] then None
    else
      var b0 := b[0] as int;
      if b0 < 0x80 then Some((b0 as char, 1))
      else if b0 < 0xC2 then None
      else if b0 < 0xE0 then
        if |b| >= 2 && IsContinuation(b[1]) then
          Some((((b0 - 0xC0) * 64 + (b[1] as int - 0x80)) as char, 2))
        else None
      else if b0 < 0xF0 then
        if |b| >= 3 && IsContinuation(b[1]) && IsContinuation(b[2])
           && (b0 != 0xE0 || b[1] >= 0xA0) && (b0 != 0xED || b[1] < 0xA0) then
          Some((((b0 - 0xE0) * 4096 + (b[1] as int - 0x80) * 64 + (b[2] as int - 0x80)) as char, 3))
        else None
      else if b0 < 0xF5 then
        if |b| >= 4 && IsContinuation(b[1]) && IsContinuation(b[2]) && IsContinuation(b[3])
           && (b0 != 0xF0 || b[1] >= 0x90) && (b0 != 0xF4 || b[1] < 0x90) then
          Some((((b0 - 0xF0) * 262144 + (b[1] as int - 0x80) * 4096
                 + (b[2] as int - 0x80) * 64 + (b[3] as int - 0x80)) as char, 4))
        else None
      else None
  }

  /** The strict `bytes.decode("utf-8")`: no more characters than bytes, and
      ASCII bytes always decode, one character each. */
  function Decode(b: seq<byte>): (r: Option<string>)
    ensures r.Some? ==> |r.value| <= |b|
    ensures (forall i :: 0 <= i < |b| ==> b[i] < 0x80) ==> r.Some? && |r.value| == |b|
    decreases |b|
  {
    if b == [] then Some([])
    else match DecodeChar(b)
      case None => None
      case Some((c, k)) =>
        match Decode(b[k..])
        case None => None
        case Some(rest) => Some([c] + rest)
  }

  /** Taking a number apart into 6-bit digits and putting it back together. */
  lemma SixBits(n: int)
    requires 0 <= n
    ensures n == (n / 64) * 64 + n % 64 && 0 <= n % 64 < 64
    ensures n / 64 == ((n / 64) / 64) * 64 + (n / 64) % 64
    ensures n / 4096 == (n / 64) / 64
    ensures (n / 64) / 64 == ((n / 4096) / 64) * 64 + (n / 4096) % 64
    ensures n / 262144 == (n / 4096) / 64
  {
  }

  lemma DecodeEncodeChar(c: char, rest: seq<byte>)
    ensures DecodeChar(EncodeChar(c) + rest) == Some((c, |EncodeChar(c)|))
  {
    var n := c as int;
    var b := EncodeChar(c) + rest;
    SixBits(n);
    if n < 0x80 {
    } else if n < 0x800 {
      assert b[0] as int == 0xC0 + n / 64 && b[1] as int == 0x80 + n % 64;
    } else if n < 0x10000 {
      assert b[0] as int == 0xE0 + n / 4096 && b[1] as int == 0x80 + (n / 64) % 64 && b[2] as int == 0x80 + n % 64;
    } else {
      assert b[0] as int == 0xF0 + n / 262144 && b[1] as int == 0x80 + (n / 4096) % 64;
      assert b[2] as int == 0x80 + (n / 64) % 64 && b[3] as int == 0x80 + n % 64;
    }
  }

  /** Decoding reads one encoded character and then the rest. */
  lemma DecodeStep(c: char, t: string)
    requires Decode(Encode(t)) == Some(t)
    ensures Decode(EncodeChar(c) + Encode(t)) == Some([c] + t)
  {
    var e := EncodeChar(c);
    DecodeEncodeChar(c, Encode(t));
    assert (e + Encode(t))[|e|..] == Encode(t);
  }

  lemma SplitEncode(s: string)
    requires s != []
    ensures Encode(s) == EncodeChar(s[0]) + Encode(s[1..]) && s == [s[0]] + s[1..]
  {
  }

  /** Decoding undoes encoding for every string. */
  lemma {:induction false} DecodeEncode(s: string)
    ensures Decode(Encode(s)) == Some(s)
  {
    if s != [] {
      DecodeEncode(s[1..]);
      DecodeStep(s[0], s[1..]);
      SplitEncode(s);
    }
  }
}
