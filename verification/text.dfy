/**
 * The handful of Python `str` operations the receptionist code relies on:
 * `isspace`/`strip`, `lower`, the `in` substring test, `join` and `split`.
 */
module Text {
  import opened Options

  /** Python's `str.isspace` for one character. */
  predicate IsSpace(c: char) {
    || c == ' '
    || ('\t' <= c <= '\r')
    || ('\U{1c}' <= c <= '\U{1f}')
    || c == '\U{85}' || c == '\U{a0}' || c == '\U{1680}'
    || ('\U{2000}' <= c <= '\U{200a}')
    || c == '\U{2028}' || c == '\U{2029}' || c == '\U{202f}' || c == '\U{205f}' || c == '\U{3000}'
  }

  /** Drops leading whitespace: the result is the suffix that starts at the first non-space. */
  function TrimLeft(s: string): (r: string)
    ensures |r| <= |s| && r == s[|s| - |r|..]
    ensures forall k :: 0 <= k < |s| - |r| ==> IsSpace(s[k])
    ensures r == [] || !IsSpace(r[0])
  {
    if s != [] && IsSpace(s[0]) then TrimLeft(s[1..]) else s
  }

  /** Drops trailing whitespace: the result is the prefix that ends at the last non-space. */
  function TrimRight(s: string): (r: string)
    ensures |r| <= |s| && r == s[..|r|]
    ensures forall k :: |r| <= k < |s| ==> IsSpace(s[k])
    ensures r == [] || !IsSpace(r[|r| - 1])
  {
    if s != [] && IsSpace(s[|s| - 1]) then TrimRight(s[..|s| - 1]) else s
  }

  /** Python's `str.strip()` with no argument. */
  function Strip(s: string): (r: string)
    ensures r != [] ==> !IsSpace(r[0]) && !IsSpace(r[|r| - 1])
  {
    TrimRight(TrimLeft(s))
  }

  /** `strip()` leaves nothing exactly when every character is whitespace. */
  lemma StripBlank(s: string)
    ensures Strip(s) == [] <==> forall k :: 0 <= k < |s| ==> IsSpace(s[k])
  {
    var l := TrimLeft(s);
    if l != [] {
      assert Strip(s) != [];
    }
  }


  /** Text that neither starts nor ends with whitespace is left as it is. */
  lemma StripUnpadded(s: string)
    requires s != [] && !IsSpace(s[0]) && !IsSpace(s[|s| - 1])
    ensures Strip(s) == s
  {
  }

  /** Stripping is idempotent: what `strip` returns has nothing left to strip. */
  lemma StripIdempotent(s: string)
    ensures Strip(Strip(s)) == Strip(s)
  {
    var r := Strip(s);
    if r != [] {
      assert TrimLeft(r) == r;
      assert TrimRight(r) == r;
    }
  }

  /** Python's `str.lower()` restricted to ASCII letters. */
  function LowerChar(c: char): char {
    if 'A' <= c <= 'Z' then (c as int + 32) as char else c
  }

  predicate IsLower(s: string) {
    forall k :: 0 <= k < |s| ==> LowerChar(s[k]) == s[k]
  }

  function Lower(s: string): (r: string)
    ensures |r| == |s|
    ensures forall k :: 0 <= k < |s| ==> r[k] == LowerChar(s[k])
  {
    if s == [] then [] else [LowerChar(s[0])] + Lower(s[1..])
  }

  /** Lowering twice is lowering once, and a lowered string is lower-case. */
  lemma LowerIdempotent(s: string)
    ensures Lower(Lower(s)) == Lower(s)
    ensures IsLower(Lower(s))
  {
  }

  /** `sub` occurs in `s` starting at index `i`. */
  predicate OccursAt(s: string, sub: string, i: int) {
    0 <= i && i + |sub| <= |s| && s[i..i + |sub|] == sub
  }

  /** Python's `sub in s` for strings. */
  function Contains(s: string, sub: string): (b: bool)
    ensures b <==> exists i :: OccursAt(s, sub, i)
  {
    if |sub| > |s| then false
    else if s[..|sub|] == sub then
      assert OccursAt(s, sub, 0);
      true
    else
      var b := Contains(s[1..], sub);
      if b then
        var i :| OccursAt(s[1..], sub, i);
        assert OccursAt(s, sub, i + 1) by {
          assert s[i + 1..i + 1 + |sub|] == s[1..][i..i + |sub|];
        }
        true
      else
        assert !OccursAt(s, sub, 0);
        forall i | 1 <= i && OccursAt(s, sub, i) ensures OccursAt(s[1..], sub, i - 1) {
          assert s[1..][i - 1..i - 1 + |sub|] == s[i..i + |sub|];
        }
        false
  }

  /**
   * Lower-casing keeps an occurrence of an already lower-case word in place, so a
   * case-sensitive hit is also a hit after `lower()`.
   */
  lemma {:induction false} LowerKeepsLowerOccurrence(s: string, sub: string, i: int)
    requires IsLower(sub) && OccursAt(s, sub, i)
    ensures OccursAt(Lower(s), sub, i)
  {
    var ls := Lower(s);
    forall k | 0 <= k < |sub| ensures ls[i..i + |sub|][k] == sub[k] {
      assert s[i..i + |sub|][k] == s[i + k];
    }
  }

  /** Python's `sep.join(parts)`. */
  function Join(parts: seq<string>, sep: string): string
  {
    if parts == [] then ""
    else if |parts| == 1 then parts[0]
    else parts[0] + sep + Join(parts[1..], sep)
  }

  /** Appending one part extends the joined text by one separator and that part. */
  lemma {:induction false} JoinAppend(parts: seq<string>, x: string, sep: string)
    ensures Join(parts + [x], sep) == if parts == [] then x else Join(parts, sep) + sep + x
  {
    if |parts| >= 2 {
      assert (parts + [x])[1..] == parts[1..] + [x];
      JoinAppend(parts[1..], x, sep);
    } else if |parts| == 1 {
      assert (parts + [x])[1..] == [x];
    } else {
      assert parts + [x] == [x];
    }
  }

  /** Python's `s.split(c)` for a one-character separator: always at least one field. */
  function Split(s: string, c: char): (r: seq<string>)
    ensures |r| >= 1
  {
    if s == [] then [""]
    else
      var rest := Split(s[1..], c);
      if s[0] == c then [""] + rest else [[s[0]] + rest[0]] + rest[1..]
  }

  /** A field without the separator followed by the separator splits off as one field. */
  lemma {:induction false} SplitField(p: string, c: char, t: string)
    requires c !in p
    ensures Split(p + [c] + t, c) == [p] + Split(t, c)
  {
    if p == [] {
      assert p + [c] + t == [c] + t;
      assert ([c] + t)[1..] == t;
    } else {
      assert (p + [c] + t)[1..] == p[1..] + [c] + t;
      SplitField(p[1..], c, t);
      assert [p[0]] + p[1..] == p;
    }
  }

  /** A field without the separator splits into itself. */
  lemma {:induction false} SplitNoSeparator(p: string, c: char)
    requires c !in p
    ensures Split(p, c) == [p]
  {
    if p != [] {
      SplitNoSeparator(p[1..], c);
      assert [p[0]] + p[1..] == p;
    }
  }

  /**
   * `split` undoes `join` when no part contains the separator: the joined text of n
   * parts has exactly n fields, so exactly n - 1 separators.
   */
  lemma {:induction false} SplitJoin(parts: seq<string>, c: char)
    requires parts != []
    requires forall k :: 0 <= k < |parts| ==> c !in parts[k]
    ensures Split(Join(parts, [c]), c) == parts
  {
    if |parts| == 1 {
      SplitNoSeparator(parts[0], c);
    } else {
      var head, tail := parts[0], parts[1..];
      assert forall k :: 0 <= k < |tail| ==> tail[k] == parts[k + 1];
      SplitJoin(tail, c);
      var joined := Join(tail, [c]);
      assert Join(parts, [c]) == head + [c] + joined;
      SplitField(head, c, joined);
      assert [head] + tail == parts;
    }
  }

  /**
   * Python's `s.split(c, 1)`: the text before the first `c` and, when `c` occurs,
   * the text after it.
   */
  function SplitOnce(s: string, c: char): (r: (string, Option<string>))
    ensures r.1.None? <==> c !in s
    ensures r.1.None? ==> r.0 == s
    ensures r.1.Some? ==> s == r.0 + [c] + r.1.value && c !in r.0
  {
    if s == [] then ("", None)
    else if s[0] == c then ("", Some(s[1..]))
    else
      var (before, after) := SplitOnce(s[1..], c);
      ([s[0]] + before, after)
  }

  /** The first `c` is where the split happens: a prefix without `c` comes back whole. */
  lemma {:induction false} SplitOnceAt(a: string, c: char, b: string)
    requires c !in a
    ensures SplitOnce(a + [c] + b, c) == (a, Some(b))
  {
    if a == [] {
      assert a + [c] + b == [c] + b;
      assert ([c] + b)[1..] == b;
    } else {
      assert (a + [c] + b)[1..] == a[1..] + [c] + b;
      SplitOnceAt(a[1..], c, b);
      assert [a[0]] + a[1..] == a;
    }
  }
}
