/**
 * UTF-8 (RFC 3629) as Python's `str.encode()` writes it and `bytes.decode()`
 * reads it in its default strict mode: only well-formed sequences are accepted,
 * so overlong forms, encoded surrogates and values above U+10FFFF are errors.
 */
module Utf8 {
  import opened Options
  import opened Bytes

  /** The one to four bytes of a character. */
  function EncodeChar(c: char): (bs: seq<byte>)
    ensures 1 <= |bs| <= 4
    ensures (|bs| == 1) == (c as int < 0x80)
  {
    var n := c as int;
    if n < 0x80 then [n]
    else if n < 0x800 then [0xC0 + n / 64, 0x80 + n % 64]
    else if n < 0x10000 then [0xE0 + n / 4096, 0x80 + n / 64 % 64, 0x80 + n % 64]
    else [0xF0 + n / 262144, 0x80 + n / 4096 % 64, 0x80 + n / 64 % 64, 0x80 + n % 64]
  }

  /** `s.encode()`. */
  function Encode(s: string): seq<byte> {
    if s == [] then [] else EncodeChar(s[0]) + Encode(s[1..])
  }

  predicate IsContinuation(b: byte) { 0x80 <= b <= 0xBF }

  /** The first character of a byte string and the number of bytes it takes, if they are well formed. */
  function DecodeFirst(bs: seq<byte>): (r: Option<(char, nat)>)
    requires bs != []
    ensures r.Some? ==> 1 <= r.value.1 <= |bs|
  {
    var b0: int := bs[0];
    if b0 < 0x80 then Some((b0 as char, 1))
    else if 0xC2 <= b0 <= 0xDF then
      if |bs| >= 2 && IsContinuation(bs[1]) then
        Some((((b0 - 0xC0) * 64 + (bs[1] as int - 0x80)) as char, 2))
      else None
    else if 0xE0 <= b0 <= 0xEF then
      if |bs| >= 3 && IsContinuation(bs[1]) && IsContinuation(bs[2])
         && (b0 != 0xE0 || bs[1] >= 0xA0) && (b0 != 0xED || bs[1] <= 0x9F) then
        Some((((b0 - 0xE0) * 4096 + (bs[1] as int - 0x80) * 64 + (bs[2] as int - 0x80)) as char, 3))
      else None
    else if 0xF0 <= b0 <= 0xF4 then
      if |bs| >= 4 && IsContinuation(bs[1]) && IsContinuation(bs[2]) && IsContinuation(bs[3])
         && (b0 != 0xF0 || bs[1] >= 0x90) && (b0 != 0xF4 || bs[1] <= 0x8F) then
        Some((((b0 - 0xF0) * 262144 + (bs[1] as int - 0x80) * 4096 + (bs[2] as int - 0x80) * 64 + (bs[3] as int - 0x80)) as char, 4))
      else None
    else None
  }

  /** `bs.decode()`: None where Python raises UnicodeDecodeError. */
  function Decode(bs: seq<byte>): Option<string>
    decreases |bs|
  {
    if bs == [] then Some("")
    else match DecodeFirst(bs)
      case None => None
      case Some((c, n)) =>
        match Decode(bs[n..])
        case None => None
        case Some(rest) => Some([c] + rest)
  }

  lemma DecodeTwoBytes(n: int, rest: seq<byte>)
    requires 0x80 <= n < 0x800
    ensures DecodeFirst([0xC0 + n / 64, 0x80 + n % 64] + rest) == Some((n as char, 2))
  {
    var bs: seq<byte> := [0xC0 + n / 64, 0x80 + n % 64] + rest;
    assert bs[0] == 0xC0 + n / 64 && bs[1] == 0x80 + n % 64;
  }

  lemma DecodeThreeBytes(n: int, rest: seq<byte>)
    requires 0x800 <= n < 0x10000 && !(0xD800 <= n <= 0xDFFF)
    ensures DecodeFirst([0xE0 + n / 4096, 0x80 + n / 64 % 64, 0x80 + n % 64] + rest) == Some((n as char, 3))
  {
    var bs: seq<byte> := [0xE0 + n / 4096, 0x80 + n / 64 % 64, 0x80 + n % 64] + rest;
    assert bs[0] == 0xE0 + n / 4096 && bs[1] == 0x80 + n / 64 % 64 && bs[2] == 0x80 + n % 64;
    assert n / 4096 * 4096 + n / 64 % 64 * 64 + n % 64 == n;
  }

  /** The base-64 digits of a supplementary code point, as the four-byte form spreads them. */
  lemma FourByteDigits(n: int)
    requires 0x10000 <= n < 0x110000
    ensures var q0, q1, q2, q3 := n / 262144, n / 4096 % 64, n / 64 % 64, n % 64;
      0 <= q0 <= 4 && 0 <= q1 < 64 && 0 <= q2 < 64 && 0 <= q3 < 64
      && (q0 == 0 ==> q1 >= 16) && (q0 == 4 ==> q1 < 16)
      && q0 * 262144 + q1 * 4096 + q2 * 64 + q3 == n
  {
    assert n / 4096 == n / 262144 * 64 + n / 4096 % 64;
    assert n / 64 == n / 4096 * 64 + n / 64 % 64;
  }

  /** Four bytes carrying valid digits decode to the code point they spell. */
  lemma DecodeFourDigits(q0: int, q1: int, q2: int, q3: int, rest: seq<byte>)
    requires 0 <= q0 <= 4 && 0 <= q1 < 64 && 0 <= q2 < 64 && 0 <= q3 < 64
    requires (q0 == 0 ==> q1 >= 16) && (q0 == 4 ==> q1 < 16)
    ensures 0x10000 <= q0 * 262144 + q1 * 4096 + q2 * 64 + q3 < 0x110000
    ensures DecodeFirst([0xF0 + q0, 0x80 + q1, 0x80 + q2, 0x80 + q3] + rest)
         == Some(((q0 * 262144 + q1 * 4096 + q2 * 64 + q3) as char, 4))
  {
    var bs: seq<byte> := [0xF0 + q0, 0x80 + q1, 0x80 + q2, 0x80 + q3] + rest;
    assert bs[0] == 0xF0 + q0 && bs[1] == 0x80 + q1 && bs[2] == 0x80 + q2 && bs[3] == 0x80 + q3;
  }

  lemma DecodeFourBytes(n: int, rest: seq<byte>)
    requires 0x10000 <= n < 0x110000
    ensures DecodeFirst([0xF0 + n / 262144, 0x80 + n / 4096 % 64, 0x80 + n / 64 % 64, 0x80 + n % 64] + rest)
         == Some((n as char, 4))
  {
    FourByteDigits(n);
    DecodeFourDigits(n / 262144, n / 4096 % 64, n / 64 % 64, n % 64, rest);
  }

  /** Each character's bytes decode back to that character. */
  lemma DecodeEncodeChar(c: char, rest: seq<byte>)
    ensures DecodeFirst(EncodeChar(c) + rest) == Some((c, |EncodeChar(c)|))
  {
    var n := c as int;
    if n < 0x80 {
    } else if n < 0x800 {
      DecodeTwoBytes(n, rest);
    } else if n < 0x10000 {
      DecodeThreeBytes(n, rest);
    } else {
      DecodeFourBytes(n, rest);
    }
  }

  /** `s.encode().decode() == s`. */
  lemma {:induction false} DecodeEncode(s: string)
    ensures Decode(Encode(s)) == Some(s)
  {
    if s != [] {
      var e := EncodeChar(s[0]);
      var rest := Encode(s[1..]);
      assert Encode(s) == e + rest;
      DecodeEncodeChar(s[0], rest);
      assert (e + rest)[|e|..] == rest;
      DecodeEncode(s[1..]);
      assert [s[0]] + s[1..] == s;
    }
  }

  /** An ASCII string encodes to its code points, one byte each. */
  lemma {:induction false} EncodeAscii(s: string)
    requires forall k :: 0 <= k < |s| ==> s[k] as int < 0x80
    ensures |Encode(s)| == |s|
    ensures forall k :: 0 <= k < |s| ==> Encode(s)[k] == s[k] as int
  {
    if s != [] {
      EncodeAscii(s[1..]);
    }
  }

  /** Encoding works character by character, so it distributes over concatenation. */
  lemma {:induction false} EncodeAppend(a: string, b: string)
    ensures Encode(a + b) == Encode(a) + Encode(b)
  {
    if a == [] {
      assert a + b == b;
    } else {
      assert (a + b)[1..] == a[1..] + b;
      EncodeAppend(a[1..], b);
    }
  }
}
