/**
 * The writer side of the cursor's JSON: `json.dumps` with its default
 * `ensure_ascii=True`, compact separators and sorted keys, for the one object
 * a cursor holds.  Each lemma here shows that the reader in module Json reads
 * back what this writer wrote.
 */
module JsonDump {
  import opened Wrappers
  import opened Json

  /** A lower-case hexadecimal digit. */
  function HexDigit(d: int): (c: char)
    requires 0 <= d < 16
    ensures '0' <= c <= 'f' && HexValue(c) == Some(d)
  {
    if d < 10 then ('0' as int + d) as char else ('a' as int + d - 10) as char
  }

  /** Four lower-case hexadecimal digits, as `'{0:04x}'.format(n)` writes them. */
  function Hex4Lower(n: int): (h: string)
    requires 0 <= n < 0x10000
    ensures |h| == 4 && forall i :: 0 <= i < 4 ==> '0' <= h[i] <= 'f'
  {
    [HexDigit(n / 4096), HexDigit((n / 256) % 16), HexDigit((n / 16) % 16), HexDigit(n % 16)]
  }

  /** Every character of `s` is ASCII, as `ensure_ascii=True` promises of its output. */
  predicate IsAscii(s: string)
  {
    forall i :: 0 <= i < |s| ==> s[i] as int < 0x80
  }

  /** The characters `json.dumps` writes as themselves: printable ASCII
      other than the quote and the backslash. */
  predicate IsPlain(c: char)
  {
    ' ' <= c <= '~' && c != '"' && c != '\\'
  }

  /** Python's ASCII escaping of one character: printable ASCII as itself,
      anything else as a backslash and an escape. */
  function EscapeChar(c: char): (e: string)
    ensures 1 <= |e|
  {
    if IsPlain(c) then [c] else ['\\'] + EscapeTail(c)
  }

  /** What follows the backslash: one of the seven short escapes, else
      `uXXXX`, or above U+FFFF a surrogate pair of two such escapes. */
  function EscapeTail(c: char): (t: string)
    requires !IsPlain(c)
  {
    if c == '"' then "\""
    else if c == '\\' then "\\"
    else if c == '\n' then "n"
    else if c == '\r' then "r"
    else if c == '\t' then "t"
    else if c == '\U{8}' then "b"
    else if c == '\U{C}' then "f"
    else if c as int < 0x10000 then ['u'] + Hex4Lower(c as int)
    else PairTail(HighHalf(c), LowHalf(c))
  }

  /** The high surrogate of a character above U+FFFF. */
  function HighHalf(c: char): (h: int)
    requires 0x10000 <= c as int
    ensures IsHighSurrogate(h)
  {
    0xD800 + (c as int - 0x10000) / 1024
  }

  /** The low surrogate of a character above U+FFFF. */
  function LowHalf(c: char): (l: int)
    requires 0x10000 <= c as int
    ensures IsLowSurrogate(l)
  {
    0xDC00 + (c as int - 0x10000) % 1024
  }

  /** `u` and the hexadecimal of the high surrogate, then `\u` and that of the low one. */
  function PairTail(hi: int, lo: int): (t: string)
    requires 0 <= hi < 0x10000 && 0 <= lo < 0x10000
    ensures |t| == 11
  {
    ['u'] + (Hex4Lower(hi) + (['\\', 'u'] + Hex4Lower(lo)))
  }

  function Escape(s: string): string
  {
    if s == [] then [] else EscapeChar(s[0]) + Escape(s[1..])
  }

  /** A JSON string literal for `s`. */
  function Quote(s: string): string { "\"" + Escape(s) + "\"" }

  /** `json.dumps({"ts": ts, "id": id}, separators=(",", ":"), sort_keys=True)`:
      the keys in sorted order, `id` before `ts`, with no spaces. */
  function CursorPayload(ts: string, id: string): (text: string)
    ensures |text| >= 2 && text[0] == '{' && text[|text| - 1] == '}'
  {
    "{" + (Quote("id") + (":" + (Quote(id) + ("," + (Quote("ts") + (":" + (Quote(ts) + "}")))))))
  }

  // ---------------------------------------------------------------- reading back

  lemma HexSplit(n: int)
    requires 0 <= n < 0x10000
    ensures n == (n / 4096) * 4096 + ((n / 256) % 16) * 256 + ((n / 16) % 16) * 16 + n % 16
  {
    assert n == (n / 16) * 16 + n % 16;
    assert n / 16 == (n / 256) * 16 + (n / 16) % 16;
    assert n / 256 == (n / 4096) * 16 + (n / 256) % 16;
  }

  lemma Hex4RoundTrip(n: int)
    requires 0 <= n < 0x10000
    ensures Hex4(Hex4Lower(n)) == Some(n)
  {
    HexSplit(n);
  }

  /** Below U+10000 the escape is `u` and four hexadecimal digits. */
  lemma BmpTailOf(c: char)
    requires !IsPlain(c) && !IsShortEscaped(c) && c as int < 0x10000
    ensures EscapeTail(c) == ['u'] + Hex4Lower(c as int)
  {
  }

  /** `u` and the four digits of a code point outside the surrogates read as
      its character. */
  lemma BmpParse(c: char, rest: string)
    requires c as int < 0x10000
    ensures ParseEscape(['u'] + Hex4Lower(c as int) + rest) == Some((c, rest))
  {
    var s := ['u'] + Hex4Lower(c as int) + rest;
    assert s[1..5] == Hex4Lower(c as int);
    assert s[5..] == rest;
    Hex4RoundTrip(c as int);
  }

  lemma BmpEscapeRoundTrip(c: char, rest: string)
    requires !IsPlain(c) && !IsShortEscaped(c) && c as int < 0x10000
    ensures ParseEscape(EscapeTail(c) + rest) == Some((c, rest))
  {
    BmpTailOf(c);
    BmpParse(c, rest);
  }

  /** A `\u` escape of a high surrogate followed by one of a low surrogate
      reads as the character the pair stands for. */
  lemma SurrogatePairParse(hi: int, lo: int, c: char, rest: string)
    requires IsHighSurrogate(hi) && IsLowSurrogate(lo)
    requires c as int == 0x10000 + (hi - 0xD800) * 1024 + (lo - 0xDC00)
    ensures ParseEscape(PairTail(hi, lo) + rest) == Some((c, rest))
  {
    var t := PairTail(hi, lo);
    var s := t + rest;
    assert t[1..5] == Hex4Lower(hi);
    assert t[7..11] == Hex4Lower(lo);
    assert s[1..5] == t[1..5];
    assert s[5] == '\\' && s[6] == 'u';
    assert s[7..11] == t[7..11];
    assert s[11..] == rest;
    Hex4RoundTrip(hi);
    Hex4RoundTrip(lo);
  }

  /** The two halves of a surrogate pair recombine to the character. */
  lemma SurrogateArithmetic(c: char)
    requires 0x10000 <= c as int
    ensures c as int == 0x10000 + (HighHalf(c) - 0xD800) * 1024 + (LowHalf(c) - 0xDC00)
  {
  }

  lemma PairEscapeRoundTrip(c: char, rest: string)
    requires 0x10000 <= c as int
    ensures ParseEscape(EscapeTail(c) + rest) == Some((c, rest))
  {
    SurrogateArithmetic(c);
    SurrogatePairParse(HighHalf(c), LowHalf(c), c, rest);
  }

  /** The characters that have a two-character escape. */
  predicate IsShortEscaped(c: char)
  {
    c == '"' || c == '\\' || c == '\n' || c == '\r' || c == '\t' || c == '\U{8}' || c == '\U{C}'
  }

  lemma ShortEscapeRoundTrip(c: char, rest: string)
    requires IsShortEscaped(c)
    ensures ParseEscape(EscapeTail(c) + rest) == Some((c, rest))
  {
    assert |EscapeTail(c)| == 1;
    assert (EscapeTail(c) + rest)[1..] == rest;
  }

  /** The reader turns the escape of `c` (after its backslash) back into `c`. */
  lemma EscapeRoundTrip(c: char, rest: string)
    requires !IsPlain(c)
    ensures ParseEscape(EscapeTail(c) + rest) == Some((c, rest))
  {
    if IsShortEscaped(c) {
      ShortEscapeRoundTrip(c, rest);
    } else if c as int < 0x10000 {
      BmpEscapeRoundTrip(c, rest);
    } else {
      PairEscapeRoundTrip(c, rest);
    }
  }

  lemma BodyPlainChar(c: char, t: string, u: string, rest: string)
    requires IsPlain(c)
    requires ParseStringBody(t) == Some((u, rest))
    ensures ParseStringBody([c] + t) == Some(([c] + u, rest))
  {
    assert ([c] + t)[1..] == t;
  }

  lemma BodyEscapedChar(c: char, t: string, u: string, rest: string)
    requires !IsPlain(c)
    requires ParseStringBody(t) == Some((u, rest))
    ensures ParseStringBody(['\\'] + (EscapeTail(c) + t)) == Some(([c] + u, rest))
  {
    EscapeRoundTrip(c, t);
    assert (['\\'] + (EscapeTail(c) + t))[1..] == EscapeTail(c) + t;
  }

  /** The escape of any character in front of a body the reader reads back
      is read back as that character. */
  lemma BodyChar(c: char, t: string, u: string, rest: string)
    requires ParseStringBody(t) == Some((u, rest))
    ensures ParseStringBody(EscapeChar(c) + t) == Some(([c] + u, rest))
  {
    if IsPlain(c) {
      BodyPlainChar(c, t, u, rest);
    } else {
      assert EscapeChar(c) + t == ['\\'] + (EscapeTail(c) + t);
      BodyEscapedChar(c, t, u, rest);
    }
  }

  /** Escaping one more character puts its escape in front. */
  lemma EscapeCons(c: char, t: string, rest: string)
    ensures Escape([c] + t) + "\"" + rest == EscapeChar(c) + (Escape(t) + "\"" + rest)
  {
    var s := [c] + t;
    assert s[0] == c && s[1..] == t;
  }

  /** One more character in front of a body the reader reads back is read
      back too. */
  lemma StringStep(c: char, t: string, rest: string)
    requires ParseStringBody(Escape(t) + "\"" + rest) == Some((t, rest))
    ensures ParseStringBody(Escape([c] + t) + "\"" + rest) == Some(([c] + t, rest))
  {
    EscapeCons(c, t, rest);
    BodyChar(c, Escape(t) + "\"" + rest, t, rest);
  }

  lemma SplitFirstChar(s: string)
    requires s != []
    ensures s == [s[0]] + s[1..]
  {
  }

  /** The reader turns the escaped body of `s` and a closing quote back into `s`. */
  lemma {:induction false} StringRoundTrip(s: string, rest: string)
    ensures ParseStringBody(Escape(s) + "\"" + rest) == Some((s, rest))
  {
    if s == [] {
      assert Escape(s) + "\"" + rest == ['"'] + rest;
    } else {
      StringRoundTrip(s[1..], rest);
      StringStep(s[0], s[1..], rest);
      SplitFirstChar(s);
    }
  }

  /** A quoted string followed by `rest` reads as that string with `rest` left. */
  lemma QuoteRoundTrip(s: string, rest: string)
    ensures ParseValue(Quote(s) + rest) == Some((JStr(s), rest))
  {
    var t := Quote(s) + rest;
    assert t[1..] == Escape(s) + "\"" + rest;
    StringRoundTrip(s, rest);
  }

  /** A quoted string followed by `a`, seen after its opening quote. */
  lemma AfterOpeningQuote(k: string, a: string)
    ensures Quote(k) + a == ['"'] + (Escape(k) + "\"" + a)
  {
  }

  lemma KeyStep(k: string, afterKey: string)
    ensures (Quote(k) + afterKey)[0] == '"'
    ensures ParseStringBody((Quote(k) + afterKey)[1..]) == Some((k, afterKey))
  {
    AfterOpeningQuote(k, afterKey);
    StringRoundTrip(k, afterKey);
  }

  lemma ColonValueStep(v: string, rest: string)
    requires rest != [] && !IsWs(rest[0])
    ensures var t := [':'] + (Quote(v) + rest);
      SkipWs(t) == t && ParseValue(SkipWs(t[1..])) == Some((JStr(v), rest)) && SkipWs(rest) == rest
  {
    var t := [':'] + (Quote(v) + rest);
    assert t[1..] == Quote(v) + rest;
    AfterOpeningQuote(v, rest);
    QuoteRoundTrip(v, rest);
  }

  /** One `"key":"value"` member followed by `rest`: the reader takes the key,
      the colon and the value, and stops at `rest`. */
  lemma MemberRoundTrip(k: string, v: string, rest: string)
    requires rest != [] && !IsWs(rest[0])
    ensures ParseMemberHead(Quote(k) + ([':'] + (Quote(v) + rest))) == Some((k, JStr(v), rest))
  {
    var afterKey := [':'] + (Quote(v) + rest);
    KeyStep(k, afterKey);
    ColonValueStep(v, rest);
  }

  lemma LastMember(k: string, v: string)
    ensures ParseMembers(Quote(k) + (":" + (Quote(v) + "}"))) == Some(([(k, JStr(v))], []))
  {
    MemberRoundTrip(k, v, "}");
  }

  /** A member followed by a comma is the first of the members after it. */
  lemma MembersAfterComma(s: string, k: string, v: Json, more: string)
    requires ParseMemberHead(s) == Some((k, v, [','] + more))
    requires more != [] && !IsWs(more[0]) && ParseMembers(more).Some?
    ensures ParseMembers(s) == Some(([(k, v)] + ParseMembers(more).value.0, ParseMembers(more).value.1))
  {
    assert ([','] + more)[1..] == more;
    assert SkipWs(more) == more;
  }

  lemma FirstMember(k: string, v: string, more: string)
    requires more != [] && more[0] == '"' && ParseMembers(more).Some?
    ensures ParseMembers(Quote(k) + (":" + (Quote(v) + ("," + more))))
         == Some(([(k, JStr(v))] + ParseMembers(more).value.0, ParseMembers(more).value.1))
  {
    MemberRoundTrip(k, v, [','] + more);
    MembersAfterComma(Quote(k) + (":" + (Quote(v) + ("," + more))), k, JStr(v), more);
  }

  lemma ObjectStep(members: string, ps: seq<(string, Json)>)
    requires members != [] && members[0] == '"'
    requires ParseMembers(members) == Some((ps, []))
    ensures Loads(['{'] + members) == Some(JObj(ToMap(ps)))
  {
    var text := ['{'] + members;
    assert text[1..] == members;
    assert SkipWs(members) == members;
    assert ParseObject(members) == Some((JObj(ToMap(ps)), []));
    assert SkipWs(text) == text;
    assert ParseValue(text) == Some((JObj(ToMap(ps)), []));
  }

  lemma TwoMembers(id: string, ts: string)
    ensures ToMap([("id", JStr(id)), ("ts", JStr(ts))]) == map["id" := JStr(id), "ts" := JStr(ts)]
  {
    var ps := [("id", JStr(id)), ("ts", JStr(ts))];
    assert ps[..1] == [("id", JStr(id))];
  }

  /** The cursor payload reads back as the object `{"id": id, "ts": ts}`. */
  lemma CursorPayloadRoundTrip(ts: string, id: string)
    ensures Loads(CursorPayload(ts, id)) == Some(JObj(map["id" := JStr(id), "ts" := JStr(ts)]))
  {
    var second := Quote("ts") + (":" + (Quote(ts) + "}"));
    var members := Quote("id") + (":" + (Quote(id) + ("," + second)));
    LastMember("ts", ts);
    AfterOpeningQuote("ts", ":" + (Quote(ts) + "}"));
    FirstMember("id", id, second);
    var ps := [("id", JStr(id)), ("ts", JStr(ts))];
    assert [("id", JStr(id))] + [("ts", JStr(ts))] == ps;
    AfterOpeningQuote("id", ":" + (Quote(id) + ("," + second)));
    ObjectStep(members, ps);
    TwoMembers(id, ts);
  }

  // ---------------------------------------------------------------- ensure_ascii

  lemma AsciiConcat(a: string, b: string)
    requires IsAscii(a) && IsAscii(b)
    ensures IsAscii(a + b)
  {
    forall i | 0 <= i < |a + b|
      ensures (a + b)[i] as int < 0x80
    {
      if i >= |a| {
        assert (a + b)[i] == b[i - |a|];
      }
    }
  }

  /** The four hexadecimal digits are ASCII. */
  lemma Hex4Ascii(n: int)
    requires 0 <= n < 0x10000
    ensures IsAscii(Hex4Lower(n))
  {
  }

  /** The surrogate-pair escape of a character above U+FFFF is ASCII. */
  lemma PairAscii(c: char)
    requires 0x10000 <= c as int
    ensures IsAscii(['\\'] + PairTail(HighHalf(c), LowHalf(c)))
  {
    var hi, lo := Hex4Lower(HighHalf(c)), Hex4Lower(LowHalf(c));
    Hex4Ascii(HighHalf(c));
    Hex4Ascii(LowHalf(c));
    AsciiConcat(['\\', 'u'], lo);
    AsciiConcat(hi, ['\\', 'u'] + lo);
    AsciiConcat(['\\', 'u'], hi + (['\\', 'u'] + lo));
    assert ['\\'] + PairTail(HighHalf(c), LowHalf(c)) == ['\\', 'u'] + (hi + (['\\', 'u'] + lo));
  }

  /** The `\uXXXX` escape of a character below U+10000 is ASCII. */
  lemma BmpAscii(c: char)
    requires c as int < 0x10000
    ensures IsAscii(['\\'] + (['u'] + Hex4Lower(c as int)))
  {
    Hex4Ascii(c as int);
    AsciiConcat(['\\', 'u'], Hex4Lower(c as int));
    assert ['\\'] + (['u'] + Hex4Lower(c as int)) == ['\\', 'u'] + Hex4Lower(c as int);
  }

  /** One escaped character is ASCII: printable ASCII kept, the rest escaped. */
  lemma EscapeCharAscii(c: char)
    ensures IsAscii(EscapeChar(c))
  {
    if IsPlain(c) {
    } else if c == '"' || c == '\\' || c == '\n' || c == '\r' || c == '\t' || c == '\U{8}' || c == '\U{C}' {
    } else if c as int < 0x10000 {
      BmpAscii(c);
    } else {
      PairAscii(c);
    }
  }

  /** `ensure_ascii=True`: the escaped text of any string is ASCII. */
  lemma {:induction false} EscapeAscii(s: string)
    ensures IsAscii(Escape(s))
  {
    if s != [] {
      EscapeCharAscii(s[0]);
      EscapeAscii(s[1..]);
      AsciiConcat(EscapeChar(s[0]), Escape(s[1..]));
    }
  }

  lemma QuoteAscii(s: string)
    ensures IsAscii(Quote(s))
  {
    EscapeAscii(s);
    AsciiConcat("\"", Escape(s));
    AsciiConcat("\"" + Escape(s), "\"");
  }

  /** The cursor payload is ASCII whatever characters `ts` and `id` hold, so
      its UTF-8 encoding has one byte per character. */
  lemma CursorPayloadAscii(ts: string, id: string)
    ensures IsAscii(CursorPayload(ts, id))
  {
    QuoteAscii("id");
    QuoteAscii(id);
    QuoteAscii("ts");
    QuoteAscii(ts);
    var t1 := Quote(ts) + "}";
    AsciiConcat(Quote(ts), "}");
    var t2 := ":" + t1;
    AsciiConcat(":", t1);
    var t3 := Quote("ts") + t2;
    AsciiConcat(Quote("ts"), t2);
    var t4 := "," + t3;
    AsciiConcat(",", t3);
    var t5 := Quote(id) + t4;
    AsciiConcat(Quote(id), t4);
    var t6 := ":" + t5;
    AsciiConcat(":", t5);
    var t7 := Quote("id") + t6;
    AsciiConcat(Quote("id"), t6);
    AsciiConcat("{", t7);
  }
}
