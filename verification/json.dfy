/**
 * JSON text (RFC 8259) as Python's `json` module writes and reads it, for the
 * one shape this system sends: an object whose members are all strings.
 * `json.dumps` defaults apply: `ensure_ascii=True`, separators ", " and ": ".
 */
module Json {
  import opened Options

  /** Printable ASCII, the only characters `json.dumps` writes when `ensure_ascii` is on. */
  predicate IsPrintableAscii(c: char) {
    ' ' <= c <= '~'
  }

  predicate AllPrintableAscii(s: string) {
    forall k :: 0 <= k < |s| ==> IsPrintableAscii(s[k])
  }

  type nibble = x: int | 0 <= x < 16
  type u16 = x: int | 0 <= x < 0x10000

  /** Lower-case hexadecimal digit, as `'{0:04x}'.format` writes it. */
  function HexDigit(d: nibble): (c: char)
    ensures IsHexChar(c) && HexValue(c) == d
  {
    if d < 10 then ('0' as int + d) as char else ('a' as int + (d - 10)) as char
  }

  predicate IsHexChar(c: char) {
    ('0' <= c <= '9') || ('a' <= c <= 'f') || ('A' <= c <= 'F')
  }

  /** The value of a hexadecimal digit; the reader accepts both cases. */
  function HexValue(c: char): nibble
    requires IsHexChar(c)
  {
    if '0' <= c <= '9' then c as int - '0' as int
    else if 'a' <= c <= 'f' then c as int - 'a' as int + 10
    else c as int - 'A' as int + 10
  }

  /** Four lower-case hex digits of a 16-bit value. */
  function Hex4(n: u16): (s: string)
    ensures IsHex4(s)
  {
    [HexDigit(n / 4096), HexDigit(n / 256 % 16), HexDigit(n / 16 % 16), HexDigit(n % 16)]
  }

  predicate IsHex4(s: string) {
    |s| == 4 && IsHexChar(s[0]) && IsHexChar(s[1]) && IsHexChar(s[2]) && IsHexChar(s[3])
  }

  function Hex4Value(s: string): u16
    requires IsHex4(s)
  {
    HexValue(s[0]) * 4096 + HexValue(s[1]) * 256 + HexValue(s[2]) * 16 + HexValue(s[3])
  }

  lemma Hex4Arithmetic(n: u16)
    ensures n / 4096 * 4096 + n / 256 % 16 * 256 + n / 16 % 16 * 16 + n % 16 == n
  {
    var a, r := n / 4096, n % 4096;
    assert n / 256 % 16 == r / 256;
    assert n / 16 % 16 == r % 256 / 16;
    assert n % 16 == r % 256 % 16;
  }

  lemma Hex4RoundTrip(n: u16)
    ensures IsHex4(Hex4(n)) && Hex4Value(Hex4(n)) == n
  {
    Hex4Arithmetic(n);
    var h := Hex4(n);
    assert HexValue(h[0]) == n / 4096 && HexValue(h[1]) == n / 256 % 16;
    assert HexValue(h[2]) == n / 16 % 16 && HexValue(h[3]) == n % 16;
  }

  predicate IsHighSurrogate(n: int) { 0xD800 <= n <= 0xDBFF }
  predicate IsLowSurrogate(n: int) { 0xDC00 <= n <= 0xDFFF }

  /** The high half of the UTF-16 surrogate pair for a character above U+FFFF. */
  function HighHalf(c: char): (h: int)
    requires c as int >= 0x10000
    ensures IsHighSurrogate(h)
  {
    0xD800 + (c as int - 0x10000) / 1024
  }

  /** The low half of the UTF-16 surrogate pair for a character above U+FFFF. */
  function LowHalf(c: char): (l: int)
    requires c as int >= 0x10000
    ensures IsLowSurrogate(l)
  {
    0xDC00 + (c as int - 0x10000) % 1024
  }

  /**
   * How `json.dumps` writes one character of a string: the two-character escapes
   * for '"', '\\' and five control characters, the character itself when it is
   * printable ASCII, otherwise a \uXXXX escape, a UTF-16 surrogate pair above U+FFFF.
   */
  function EscapeChar(c: char): (r: string)
    ensures |r| >= 1 && r[0] != '"'
  {
    if c == '"' then "\\\""
    else if c == '\\' then "\\\\"
    else if c == '\n' then "\\n"
    else if c == '\r' then "\\r"
    else if c == '\t' then "\\t"
    else if c == '\U{8}' then "\\b"
    else if c == '\U{c}' then "\\f"
    else if IsPrintableAscii(c) then [c]
    else if c as int < 0x10000 then "\\u" + Hex4(c as int)
    else "\\u" + Hex4(HighHalf(c)) + "\\u" + Hex4(LowHalf(c))
  }

  /** The body of a JSON string literal, every character escaped as above. */
  function EscapeString(s: string): string
  {
    if s == [] then "" else EscapeChar(s[0]) + EscapeString(s[1..])
  }

  /** A JSON string literal: `json.dumps(s)` for a `str`. */
  function Quote(s: string): (r: string)
    ensures |r| >= 2 && r[0] == '"'
  {
    "\"" + EscapeString(s) + "\""
  }

  /** The character an escape sequence stands for, and the text after it; `s` starts after the backslash. */
  function ParseEscape(s: string): (r: Option<(char, string)>)
    ensures r.Some? ==> |r.value.1| < |s|
  {
    if s == [] then None
    else if s[0] == '"' then Some(('"', s[1..]))
    else if s[0] == '\\' then Some(('\\', s[1..]))
    else if s[0] == '/' then Some(('/', s[1..]))
    else if s[0] == 'b' then Some(('\U{8}', s[1..]))
    else if s[0] == 'f' then Some(('\U{c}', s[1..]))
    else if s[0] == 'n' then Some(('\n', s[1..]))
    else if s[0] == 'r' then Some(('\r', s[1..]))
    else if s[0] == 't' then Some(('\t', s[1..]))
    else if s[0] != 'u' || |s| < 5 || !IsHex4(s[1..5]) then None
    else
      var hi := Hex4Value(s[1..5]);
      if IsHighSurrogate(hi) then
        if |s| >= 11 && s[5] == '\\' && s[6] == 'u' && IsHex4(s[7..11]) && IsLowSurrogate(Hex4Value(s[7..11])) then
          var lo := Hex4Value(s[7..11]);
          Some(((0x10000 + (hi - 0xD800) * 1024 + (lo - 0xDC00)) as char, s[11..]))
        else None
      else if IsLowSurrogate(hi) then None
      else Some((hi as char, s[5..]))
  }

  function Prepend(c: char, r: Option<(string, string)>): Option<(string, string)> {
    match r
    case None => None
    case Some((t, rest)) => Some(([c] + t, rest))
  }

  /**
   * Reads the rest of a string literal (`s` starts after the opening quote):
   * the decoded text and what follows the closing quote. Unescaped control
   * characters are refused, as `json.loads` does in its default strict mode.
   */
  function ParseStringBody(s: string): Option<(string, string)>
    decreases |s|
  {
    if s == [] then None
    else if s[0] == '"' then Some(("", s[1..]))
    else if s[0] == '\\' then
      match ParseEscape(s[1..])
      case None => None
      case Some((c, rest)) => Prepend(c, ParseStringBody(rest))
    else if s[0] < ' ' then None
    else Prepend(s[0], ParseStringBody(s[1..]))
  }

  /** A hex escape of a character below U+10000 reads back as that character. */
  lemma ReadBmpEscape(c: char, t: string)
    requires c as int < 0x10000
    ensures ParseEscape("u" + Hex4(c as int) + t) == Some((c, t))
  {
    var s := "u" + Hex4(c as int) + t;
    Hex4RoundTrip(c as int);
    assert s[1..5] == Hex4(c as int);
    assert s[5..] == t;
  }

  /** A surrogate pair of hex escapes reads back as the character above U+FFFF it encodes. */
  lemma ReadPairEscape(c: char, t: string)
    requires c as int >= 0x10000
    ensures ParseEscape("u" + Hex4(HighHalf(c)) + "\\u" + Hex4(LowHalf(c)) + t) == Some((c, t))
  {
    Hex4RoundTrip(HighHalf(c));
    Hex4RoundTrip(LowHalf(c));
    JoinHalves(c);
    ReadHexPair(Hex4(HighHalf(c)), Hex4(LowHalf(c)), t);
  }

  /** The two halves of a surrogate pair put back together give the character. */
  lemma JoinHalves(c: char)
    requires c as int >= 0x10000
    ensures 0x10000 + (HighHalf(c) - 0xD800) * 1024 + (LowHalf(c) - 0xDC00) == c as int
  {
    var n := c as int - 0x10000;
    assert n == n / 1024 * 1024 + n % 1024;
  }

  /** A high-surrogate hex escape followed by a low-surrogate one reads as the pair's character. */
  lemma ReadHexPair(h: string, l: string, t: string)
    requires IsHex4(h) && IsHex4(l)
    requires IsHighSurrogate(Hex4Value(h)) && IsLowSurrogate(Hex4Value(l))
    ensures ParseEscape("u" + h + "\\u" + l + t)
         == Some(((0x10000 + (Hex4Value(h) - 0xD800) * 1024 + (Hex4Value(l) - 0xDC00)) as char, t))
  {
    var s := "u" + h + "\\u" + l + t;
    assert s[1..5] == h;
    assert s[5] == '\\' && s[6] == 'u';
    assert s[7..11] == l;
    assert s[11..] == t;
  }

  /** A printable character that needs no escape reads back as itself. */
  lemma ReadPlainChar(c: char, t: string)
    requires IsPrintableAscii(c) && c != '"' && c != '\\'
    ensures ParseStringBody([c] + t) == Prepend(c, ParseStringBody(t))
  {
    assert ([c] + t)[1..] == t;
  }

  /** A backslash followed by an escape that reads as `c` reads back as `c`. */
  lemma ReadEscape(u: string, c: char, t: string)
    requires ParseEscape(u) == Some((c, t))
    ensures ParseStringBody("\\" + u) == Prepend(c, ParseStringBody(t))
  {
    assert ("\\" + u)[1..] == u;
  }

  /** The characters `json.dumps` writes as a backslash and one letter or symbol. */
  predicate HasShortEscape(c: char) {
    c == '"' || c == '\\' || c == '\n' || c == '\r' || c == '\t' || c == '\U{8}' || c == '\U{c}'
  }

  lemma ReadShortEscape(c: char, t: string)
    requires HasShortEscape(c)
    ensures ParseStringBody(EscapeChar(c) + t) == Prepend(c, ParseStringBody(t))
  {
    var e := EscapeChar(c);
    assert |e| == 2 && e[0] == '\\';
    var u := [e[1]] + t;
    assert e + t == "\\" + u;
    assert u[1..] == t;
    assert ParseEscape(u) == Some((c, t));
    ReadEscape(u, c, t);
  }

  lemma ReadHexEscape(c: char, t: string)
    requires !HasShortEscape(c) && !IsPrintableAscii(c) && c as int < 0x10000
    ensures ParseStringBody(EscapeChar(c) + t) == Prepend(c, ParseStringBody(t))
  {
    var u := "u" + Hex4(c as int) + t;
    assert EscapeChar(c) == "\\u" + Hex4(c as int);
    assert EscapeChar(c) + t == "\\" + u;
    ReadBmpEscape(c, t);
    ReadEscape(u, c, t);
  }

  lemma ReadSurrogatePair(c: char, t: string)
    requires c as int >= 0x10000
    ensures ParseStringBody(EscapeChar(c) + t) == Prepend(c, ParseStringBody(t))
  {
    ReadPairEscape(c, t);
    ReadPairText(Hex4(HighHalf(c)), Hex4(LowHalf(c)), c, t);
  }

  /** Two hex escapes that read as `c` put `c` in front of what follows them. */
  lemma ReadPairText(hi: string, lo: string, c: char, t: string)
    requires ParseEscape("u" + hi + "\\u" + lo + t) == Some((c, t))
    ensures ParseStringBody(("\\u" + hi + "\\u" + lo) + t) == Prepend(c, ParseStringBody(t))
  {
    SplitBackslash(hi, lo, t);
    ReadEscape("u" + hi + "\\u" + lo + t, c, t);
  }

  /** The leading backslash of a surrogate-pair escape, split off the rest of the text. */
  lemma SplitBackslash(hi: string, lo: string, t: string)
    ensures ("\\u" + hi + "\\u" + lo) + t == "\\" + ("u" + hi + "\\u" + lo + t)
  {
  }

  /** Reading an escaped character yields that character, then reading goes on after it. */
  lemma ReadEscapedChar(c: char, t: string)
    ensures ParseStringBody(EscapeChar(c) + t) == Prepend(c, ParseStringBody(t))
  {
    if HasShortEscape(c) {
      ReadShortEscape(c, t);
    } else if IsPrintableAscii(c) {
      ReadPlainChar(c, t);
    } else if c as int < 0x10000 {
      ReadHexEscape(c, t);
    } else {
      ReadSurrogatePair(c, t);
    }
  }

  /** Reading the escaped text of `s` and its closing quote gives back exactly `s`. */
  lemma {:induction false} ReadQuotedBody(s: string, rest: string)
    ensures ParseStringBody(EscapeString(s) + "\"" + rest) == Some((s, rest))
  {
    if s == [] {
      assert EscapeString(s) + "\"" + rest == "\"" + rest;
      assert ("\"" + rest)[1..] == rest;
    } else {
      var t := EscapeString(s[1..]) + "\"" + rest;
      assert EscapeString(s) + "\"" + rest == EscapeChar(s[0]) + t;
      ReadEscapedChar(s[0], t);
      ReadQuotedBody(s[1..], rest);
      assert [s[0]] + s[1..] == s;
    }
  }

  /** JSON insignificant whitespace: space, tab, line feed, carriage return. */
  predicate IsWs(c: char) {
    c == ' ' || c == '\t' || c == '\n' || c == '\r'
  }

  function SkipWs(s: string): (r: string)
    ensures |r| <= |s|
    ensures r == [] || !IsWs(r[0])
  {
    if s != [] && IsWs(s[0]) then SkipWs(s[1..]) else s
  }

  /** A string literal: the decoded text and what follows it. */
  function ParseString(s: string): (r: Option<(string, string)>)
    ensures r.Some? ==> |r.value.1| < |s|
  {
    if s == [] || s[0] != '"' then None
    else
      var r := ParseStringBody(s[1..]);
      if r.Some? then
        ParseStringBodyShorter(s[1..]);
        r
      else None
  }

  lemma {:induction false} ParseStringBodyShorter(s: string)
    ensures ParseStringBody(s).Some? ==> |ParseStringBody(s).value.1| < |s|
    decreases |s|
  {
    if s != [] && s[0] != '"' {
      if s[0] == '\\' {
        match ParseEscape(s[1..])
        case None =>
        case Some((c, rest)) => ParseStringBodyShorter(rest);
      } else if s[0] >= ' ' {
        ParseStringBodyShorter(s[1..]);
      }
    }
  }

  /** One object member `"key": "value"` and the text after it. */
  function ParseMember(s: string): (r: Option<(string, string, string)>)
    ensures r.Some? ==> |r.value.2| < |s|
  {
    match ParseString(s)
    case None => None
    case Some((key, afterKey)) =>
      var colon := SkipWs(afterKey);
      if colon == [] || colon[0] != ':' then None
      else
        match ParseString(SkipWs(colon[1..]))
        case None => None
        case Some((value, afterValue)) => Some((key, value, afterValue))
  }

  /**
   * The members of an object from the first one to the closing brace; a later
   * member with the same key overwrites an earlier one, as in a Python `dict`.
   */
  function ParseMembers(s: string, acc: map<string, string>): Option<(map<string, string>, string)>
    decreases |s|
  {
    match ParseMember(s)
    case None => None
    case Some((key, value, afterMember)) =>
      var acc' := acc[key := value];
      var r := SkipWs(afterMember);
      if r != [] && r[0] == '}' then Some((acc', r[1..]))
      else if r != [] && r[0] == ',' then ParseMembers(SkipWs(r[1..]), acc')
      else None
  }

  /** `json.loads` of a whole text that must be an object with string values. */
  function ParseObject(s: string): Option<map<string, string>> {
    var s1 := SkipWs(s);
    if s1 == [] || s1[0] != '{' then None
    else
      var s2 := SkipWs(s1[1..]);
      if s2 != [] && s2[0] == '}' then
        if SkipWs(s2[1..]) == [] then Some(map[]) else None
      else
        match ParseMembers(s2, map[])
        case None => None
        case Some((m, rest)) => if SkipWs(rest) == [] then Some(m) else None
  }

  /** `"key": "value"` with `json.dumps`'s key separator. */
  function Member(key: string, value: string): (r: string)
    ensures |r| > 0 && r[0] == '"'
  {
    Quote(key) + ": " + Quote(value)
  }

  /** The members of a non-empty object, in insertion order, with ", " between them. */
  function Members(pairs: seq<(string, string)>): (r: string)
    requires pairs != []
    ensures |r| > 0 && r[0] == '"'
  {
    if |pairs| == 1 then Member(pairs[0].0, pairs[0].1)
    else Member(pairs[0].0, pairs[0].1) + ", " + Members(pairs[1..])
  }

  /** `json.dumps` of a dict of strings whose keys were inserted in the order of `pairs`. */
  function DumpObject(pairs: seq<(string, string)>): string
  {
    if pairs == [] then "{}" else "{" + Members(pairs) + "}"
  }

  /** The dict built by inserting `pairs` in order into `acc`. */
  function ToMap(acc: map<string, string>, pairs: seq<(string, string)>): map<string, string>
    decreases |pairs|
  {
    if pairs == [] then acc else ToMap(acc[pairs[0].0 := pairs[0].1], pairs[1..])
  }

  lemma SkipNonWs(s: string)
    requires s != [] && !IsWs(s[0])
    ensures SkipWs(s) == s
  {
  }

  lemma SkipOneSpace(s: string)
    requires s != [] && !IsWs(s[0])
    ensures SkipWs(" " + s) == s
  {
    assert (" " + s)[1..] == s;
  }

  /** A dumped string literal reads back as the string, followed by whatever came after it. */
  lemma ReadQuoted(s: string, rest: string)
    ensures ParseString(Quote(s) + rest) == Some((s, rest))
  {
    var q := Quote(s) + rest;
    assert q == "\"" + (EscapeString(s) + "\"" + rest);
    assert q[0] == '"' && q[1..] == EscapeString(s) + "\"" + rest;
    ReadQuotedBody(s, rest);
  }

  /** A dumped member reads back as its key, its value and the text after it. */
  lemma ReadMember(key: string, value: string, rest: string)
    ensures ParseMember(Member(key, value) + rest) == Some((key, value, rest))
  {
    var v := Quote(value) + rest;
    var afterKey := ": " + v;
    Regroup4(Quote(key), ": ", Quote(value), rest);
    ReadQuoted(key, afterKey);
    SkipNonWs(afterKey);
    DropColon(v);
    SkipOneSpace(v);
    ReadQuoted(value, rest);
  }

  lemma Regroup4(a: string, b: string, c: string, d: string)
    ensures (a + b + c) + d == a + (b + (c + d))
  {
  }

  /** The separator ": " in front of `v`: a colon, then the space and `v`. */
  lemma DropColon(v: string)
    ensures (": " + v)[0] == ':' && (": " + v)[1..] == " " + v
  {
  }

  /** After the last member, the closing brace ends the object. */
  lemma ReadLastMember(key: string, value: string, acc: map<string, string>, rest: string)
    ensures ParseMembers(Member(key, value) + "}" + rest, acc) == Some((acc[key := value], rest))
  {
    var after := "}" + rest;
    assert Member(key, value) + "}" + rest == Member(key, value) + after;
    ReadMember(key, value, after);
    SkipNonWs(after);
    assert after[1..] == rest;
  }

  /** After a member followed by ", ", reading goes on with the next member. */
  lemma ReadInnerMember(key: string, value: string, acc: map<string, string>, tail: string)
    requires tail != [] && tail[0] == '"'
    ensures ParseMembers(Member(key, value) + ", " + tail, acc) == ParseMembers(tail, acc[key := value])
  {
    var after := ", " + tail;
    assert Member(key, value) + ", " + tail == Member(key, value) + after;
    ReadMember(key, value, after);
    SkipNonWs(after);
    assert after[1..] == " " + tail;
    SkipOneSpace(tail);
  }

  /** Moves the boundary of a five-part concatenation. */
  lemma Regroup(a: string, b: string, c: string, d: string, e: string)
    ensures (a + b + c) + d + e == a + b + (c + d + e)
  {
  }

  /** Dumped members and the closing brace read back as the dict they were built from. */
  lemma {:induction false} ReadMembers(pairs: seq<(string, string)>, acc: map<string, string>, rest: string)
    requires pairs != []
    ensures ParseMembers(Members(pairs) + "}" + rest, acc) == Some((ToMap(acc, pairs), rest))
    decreases |pairs|
  {
    var (k, v) := pairs[0];
    var acc' := acc[k := v];
    assert ToMap(acc, pairs) == ToMap(acc', pairs[1..]);
    if |pairs| == 1 {
      assert Members(pairs) == Member(k, v);
      assert ToMap(acc', pairs[1..]) == acc';
      ReadLastMember(k, v, acc, rest);
    } else {
      var tail := Members(pairs[1..]) + "}" + rest;
      assert Members(pairs) == Member(k, v) + ", " + Members(pairs[1..]);
      Regroup(Member(k, v), ", ", Members(pairs[1..]), "}", rest);
      ReadInnerMember(k, v, acc, tail);
      assert ParseMembers(Members(pairs) + "}" + rest, acc) == ParseMembers(tail, acc');
      ReadMembers(pairs[1..], acc', rest);
    }
  }

  /** `json.loads(json.dumps(d)) == d` for a dict of strings. */
  lemma ParseDump(pairs: seq<(string, string)>)
    ensures ParseObject(DumpObject(pairs)) == Some(ToMap(map[], pairs))
  {
    var s := DumpObject(pairs);
    SkipNonWs(s);
    if pairs == [] {
      assert s[1..] == "}";
      assert "}"[1..] == "";
    } else {
      var body := Members(pairs) + "}";
      assert s[1..] == body + "";
      assert body[0] == '"';
      SkipNonWs(body);
      ReadMembers(pairs, map[], "");
    }
  }

  lemma AppendAscii(a: string, b: string)
    requires AllPrintableAscii(a) && AllPrintableAscii(b)
    ensures AllPrintableAscii(a + b)
  {
    assert forall k :: 0 <= k < |b| ==> (a + b)[|a| + k] == b[k];
  }

  /** Every escape `json.dumps` writes is printable ASCII. */
  lemma EscapeCharAscii(c: char)
    ensures AllPrintableAscii(EscapeChar(c))
  {
    if !HasShortEscape(c) && !IsPrintableAscii(c) {
      var n := c as int;
      if n < 0x10000 {
        var h := Hex4(n);
        assert AllPrintableAscii(h);
        AppendAscii("\\u", h);
      } else {
        var h1, h2 := Hex4(HighHalf(c)), Hex4(LowHalf(c));
        assert AllPrintableAscii(h1) && AllPrintableAscii(h2);
        AppendAscii("\\u", h1);
        AppendAscii("\\u" + h1, "\\u");
        AppendAscii("\\u" + h1 + "\\u", h2);
      }
    }
  }

  lemma {:induction false} EscapeStringAscii(s: string)
    ensures AllPrintableAscii(EscapeString(s))
  {
    if s != [] {
      EscapeCharAscii(s[0]);
      EscapeStringAscii(s[1..]);
      AppendAscii(EscapeChar(s[0]), EscapeString(s[1..]));
    }
  }

  lemma QuoteAscii(s: string)
    ensures AllPrintableAscii(Quote(s))
  {
    EscapeStringAscii(s);
    AppendAscii("\"", EscapeString(s));
    AppendAscii("\"" + EscapeString(s), "\"");
  }

  lemma MemberAscii(key: string, value: string)
    ensures AllPrintableAscii(Member(key, value))
  {
    QuoteAscii(key);
    QuoteAscii(value);
    AppendAscii(Quote(key), ": ");
    AppendAscii(Quote(key) + ": ", Quote(value));
  }

  lemma {:induction false} MembersAscii(pairs: seq<(string, string)>)
    requires pairs != []
    ensures AllPrintableAscii(Members(pairs))
    decreases |pairs|
  {
    MemberAscii(pairs[0].0, pairs[0].1);
    if |pairs| > 1 {
      MembersAscii(pairs[1..]);
      AppendAscii(Member(pairs[0].0, pairs[0].1), ", ");
      AppendAscii(Member(pairs[0].0, pairs[0].1) + ", ", Members(pairs[1..]));
    }
  }

  /** With `ensure_ascii`, the whole dumped object is printable ASCII. */
  lemma DumpObjectAscii(pairs: seq<(string, string)>)
    ensures AllPrintableAscii(DumpObject(pairs))
  {
    if pairs != [] {
      MembersAscii(pairs);
      AppendAscii("{", Members(pairs));
      AppendAscii("{" + Members(pairs), "}");
    }
  }

  /** A text of printable ASCII without '"' or '\\' is written as itself. */
  lemma {:induction false} EscapeStringPlain(s: string)
    requires forall k :: 0 <= k < |s| ==> IsPrintableAscii(s[k]) && s[k] != '"' && s[k] != '\\'
    ensures EscapeString(s) == s
  {
    if s != [] {
      EscapeStringPlain(s[1..]);
      assert [s[0]] + s[1..] == s;
    }
  }
}
