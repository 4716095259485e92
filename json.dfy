/**
 * JSON values and the reader behind Python's `json.loads` (its C scanner, with
 * `strict=True`): RFC 8259 plus the constants `NaN`, `Infinity` and
 * `-Infinity`, whitespace limited to space, tab, line feed and carriage return,
 * raw control characters refused inside strings, and the last of two equal
 * object keys winning.
 *
 * Every parser takes the unread text and returns the value it read together
 * with the text it did not consume.
 */
module Json {
  import opened Wrappers

  /** A JSON value.  Integers are exact; other numbers keep their text. */
  datatype Json =
    | JNull
    | JBool(b: bool)
    | JInt(i: int)
    | JFloat(lexeme: string)
    | JStr(s: string)
    | JArr(elems: seq<Json>)
    | JObj(fields: map<string, Json>)

  predicate IsWs(c: char) { c == ' ' || c == '\t' || c == '\n' || c == '\r' }

  predicate IsDigit(c: char) { '0' <= c <= '9' }

  /** The text after any leading whitespace. */
  function SkipWs(s: string): (r: string)
    ensures |r| <= |s|
    ensures r == [] || !IsWs(r[0])
  {
    if s != [] && IsWs(s[0]) then SkipWs(s[1..]) else s
  }

  /** What `SkipWs` leaves is a suffix of its input. */
  lemma {:induction false} SkipWsSuffix(s: string)
    ensures SkipWs(s) == s[|s| - |SkipWs(s)|..]
  {
    if s != [] && IsWs(s[0]) {
      SkipWsSuffix(s[1..]);
    }
  }

  predicate StartsWith(s: string, p: string) { |p| <= |s| && s[..|p|] == p }

  // ---------------------------------------------------------------- strings

  function HexValue(c: char): (r: Option<int>)
    ensures r.Some? ==> 0 <= r.value < 16
  {
    if '0' <= c <= '9' then Some(c as int - '0' as int)
    else if 'a' <= c <= 'f' then Some(c as int - 'a' as int + 10)
    else if 'A' <= c <= 'F' then Some(c as int - 'A' as int + 10)
    else None
  }

  /** The value of four hexadecimal digits, of either case. */
  function Hex4(h: string): (r: Option<int>)
    requires |h| == 4
    ensures r.Some? ==> 0 <= r.value < 0x10000
  {
    var d0, d1, d2, d3 := HexValue(h[0]), HexValue(h[1]), HexValue(h[2]), HexValue(h[3]);
    if d0.Some? && d1.Some? && d2.Some? && d3.Some? then
      Some(d0.value * 4096 + d1.value * 256 + d2.value * 16 + d3.value)
    else None
  }

  predicate IsHighSurrogate(n: int) { 0xD800 <= n < 0xDC00 }
  predicate IsLowSurrogate(n: int) { 0xDC00 <= n < 0xE000 }

  /** The escape after a backslash: the character it stands for and the text
      after it.  A `\u` escape of a high surrogate must be followed by a `\u`
      escape of a low surrogate; the two stand for one character.  A surrogate
      left alone is refused (see the README). */
  function ParseEscape(s: string): (r: Option<(char, string)>)
    ensures r.Some? ==> |r.value.1| < |s|
  {
    if s == [] then None
    else if s[0] == '"' then Some(('"', s[1..]))
    else if s[0] == '\\' then Some(('\\', s[1..]))
    else if s[0] == '/' then Some(('/', s[1..]))
    else if s[0] == 'b' then Some(('\U{8}', s[1..]))
    else if s[0] == 'f' then Some(('\U{C}', s[1..]))
    else if s[0] == 'n' then Some(('\n', s[1..]))
    else if s[0] == 'r' then Some(('\r', s[1..]))
    else if s[0] == 't' then Some(('\t', s[1..]))
    else if s[0] == 'u' && |s| >= 5 then
      match Hex4(s[1..5])
      case None => None
      case Some(h) =>
        if IsHighSurrogate(h) then
          if |s| >= 11 && s[5] == '\\' && s[6] == 'u' then
            match Hex4(s[7..11])
            case Some(l) =>
              if IsLowSurrogate(l) then
                Some(((0x10000 + (h - 0xD800) * 1024 + (l - 0xDC00)) as char, s[11..]))
              else None
            case None => None
          else None
        else if IsLowSurrogate(h) then None
        else Some((h as char, s[5..]))
    else None
  }

  /** The body of a string after its opening quote: the characters up to the
      closing quote, and the text after that quote. */
  function ParseStringBody(s: string): (r: Option<(string, string)>)
    ensures r.Some? ==> |r.value.1| < |s|
    decreases |s|
  {
    if s == [] then None
    else if s[0] == '"' then Some(([], s[1..]))
    else if s[0] == '\\' then
      match ParseEscape(s[1..])
      case None => None
      case Some((c, rest)) =>
        match ParseStringBody(rest)
        case None => None
        case Some((t, after)) => Some(([c] + t, after))
    else if s[0] as int < 0x20 then None
    else
      match ParseStringBody(s[1..])
      case None => None
      case Some((t, after)) => Some(([s[0]] + t, after))
  }

  // ---------------------------------------------------------------- numbers

  /** The longest run of ASCII digits at the front of `s`. */
  function Digits(s: string): (d: string)
    ensures |d| <= |s| && d == s[..|d|]
    ensures forall i :: 0 <= i < |d| ==> IsDigit(d[i])
    ensures |d| < |s| ==> !IsDigit(s[|d|])
  {
    if s != [] && IsDigit(s[0]) then [s[0]] + Digits(s[1..]) else []
  }

  function DigitsValue(d: string): (n: nat)
    requires forall i :: 0 <= i < |d| ==> IsDigit(d[i])
  {
    if d == [] then 0
    else
      assert IsDigit(d[|d| - 1]);
      DigitsValue(d[..|d| - 1]) * 10 + (d[|d| - 1] as int - '0' as int)
  }

  /** The optional exponent at the front of `s`: `e` or `E`, an optional sign and
      at least one digit; empty when that is not there (the reader backs off). */
  function Exponent(s: string): (e: string)
    ensures |e| <= |s| && e == s[..|e|]
  {
    if s != [] && (s[0] == 'e' || s[0] == 'E') then
      var sign := if |s| >= 2 && (s[1] == '+' || s[1] == '-') then 1 else 0;
      var d := Digits(s[1 + sign..]);
      if d == [] then [] else s[..1 + sign + |d|]
    else []
  }

  /** The optional fraction at the front of `s`: a point and at least one digit. */
  function Fraction(s: string): (f: string)
    ensures |f| <= |s| && f == s[..|f|]
  {
    if |s| >= 2 && s[0] == '.' && IsDigit(s[1]) then s[..1 + |Digits(s[1..])|] else []
  }

  /** A number: an optional minus, `0` or a digit run not starting with `0`, then
      an optional fraction and exponent.  With neither it is an integer. */
  function ParseNumber(s: string): (r: Option<(Json, string)>)
    ensures r.Some? ==> |r.value.1| < |s|
  {
    var sign := if s != [] && s[0] == '-' then 1 else 0;
    var t := s[sign..];
    if t == [] || !IsDigit(t[0]) then None
    else
      var whole := if t[0] == '0' then t[..1] else Digits(t);
      var frac := Fraction(t[|whole|..]);
      var exp := Exponent(t[|whole| + |frac|..]);
      var len := sign + |whole| + |frac| + |exp|;
      if frac == [] && exp == [] then
        var n: int := DigitsValue(whole);
        Some((JInt(if sign == 1 then -n else n), s[len..]))
      else Some((JFloat(s[..len]), s[len..]))
  }

  // ---------------------------------------------------------------- values

  /** One value at the very front of `s` (no leading whitespace). */
  function ParseValue(s: string): (r: Option<(Json, string)>)
    ensures r.Some? ==> |r.value.1| < |s|
    decreases |s|, 0
  {
    if s == [] then None
    else if s[0] == '"' then
      match ParseStringBody(s[1..])
      case None => None
      case Some((t, rest)) => Some((JStr(t), rest))
    else if s[0] == '{' then ParseObject(s[1..])
    else if s[0] == '[' then ParseArray(s[1..])
    else if StartsWith(s, "null") then Some((JNull, s[4..]))
    else if StartsWith(s, "true") then Some((JBool(true), s[4..]))
    else if StartsWith(s, "false") then Some((JBool(false), s[5..]))
    else if StartsWith(s, "NaN") then Some((JFloat("NaN"), s[3..]))
    else if StartsWith(s, "Infinity") then Some((JFloat("Infinity"), s[8..]))
    else if StartsWith(s, "-Infinity") then Some((JFloat("-Infinity"), s[9..]))
    else ParseNumber(s)
  }

  /** The rest of an array after `[`. */
  function ParseArray(s: string): (r: Option<(Json, string)>)
    ensures r.Some? ==> |r.value.1| < |s|
    decreases |s|, 2
  {
    var t := SkipWs(s);
    if t != [] && t[0] == ']' then Some((JArr([]), t[1..]))
    else
      match ParseElements(t)
      case None => None
      case Some((xs, rest)) => Some((JArr(xs), rest))
  }

  /** Comma-separated values up to and including the closing `]`. */
  function ParseElements(s: string): (r: Option<(seq<Json>, string)>)
    ensures r.Some? ==> |r.value.1| < |s|
    decreases |s|, 1
  {
    match ParseValue(s)
    case None => None
    case Some((v, rest)) =>
      var t := SkipWs(rest);
      if t == [] then None
      else if t[0] == ']' then Some(([v], t[1..]))
      else if t[0] == ',' then
        match ParseElements(SkipWs(t[1..]))
        case None => None
        case Some((vs, after)) => Some(([v] + vs, after))
      else None
  }

  /** The rest of an object after `{`. */
  function ParseObject(s: string): (r: Option<(Json, string)>)
    ensures r.Some? ==> |r.value.1| < |s|
    decreases |s|, 2
  {
    var t := SkipWs(s);
    if t != [] && t[0] == '}' then Some((JObj(map[]), t[1..]))
    else
      match ParseMembers(t)
      case None => None
      case Some((ps, rest)) => Some((JObj(ToMap(ps)), rest))
  }

  /** One `"key": value` member at the front of `s`, and the text after it and
      any whitespace that follows it. */
  function ParseMemberHead(s: string): (r: Option<(string, Json, string)>)
    ensures r.Some? ==> |r.value.2| < |s|
    decreases |s|, 0
  {
    if s == [] || s[0] != '"' then None
    else match ParseStringBody(s[1..])
      case None => None
      case Some((k, afterKey)) =>
        var t := SkipWs(afterKey);
        if t == [] || t[0] != ':' then None
        else match ParseValue(SkipWs(t[1..]))
          case None => None
          case Some((v, rest)) => Some((k, v, SkipWs(rest)))
  }

  /** Comma-separated `"key": value` members up to and including the closing `}`. */
  function ParseMembers(s: string): (r: Option<(seq<(string, Json)>, string)>)
    ensures r.Some? ==> |r.value.1| < |s|
    decreases |s|, 1
  {
    match ParseMemberHead(s)
    case None => None
    case Some((k, v, u)) =>
      if u == [] then None
      else if u[0] == '}' then Some(([(k, v)], u[1..]))
      else if u[0] == ',' then
        match ParseMembers(SkipWs(u[1..]))
        case None => None
        case Some((ps, after)) => Some(([(k, v)] + ps, after))
      else None
  }

  /** The object a list of members denotes: a later member with the same key
      replaces an earlier one, as in a Python dict. */
  function ToMap(ps: seq<(string, Json)>): (m: map<string, Json>)
    ensures forall k :: k in m <==> exists i :: 0 <= i < |ps| && ps[i].0 == k
    ensures |ps| > 0 ==> m[ps[|ps| - 1].0] == ps[|ps| - 1].1
  {
    if ps == [] then map[]
    else
      var m0 := ToMap(ps[..|ps| - 1]);
      assert forall i :: 0 <= i < |ps| - 1 ==> ps[..|ps| - 1][i] == ps[i];
      m0[ps[|ps| - 1].0 := ps[|ps| - 1].1]
  }

  /** Python's `json.loads`: one value with optional whitespace around it and
      nothing else; `None` where it raises, as it does on an empty or blank
      text. */
  function Loads(text: string): (r: Option<Json>)
    ensures (forall i :: 0 <= i < |text| ==> IsWs(text[i])) ==> r.None?
  {
    SkipWsSuffix(text);
    match ParseValue(SkipWs(text))
    case None => None
    case Some((v, rest)) => if SkipWs(rest) == [] then Some(v) else None
  }
}
