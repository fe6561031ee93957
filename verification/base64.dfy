/**
 * Base64 with the standard alphabet of section 4 of RFC 4648, as Python's
 * `base64.b64encode` writes it and as `base64.b64decode` (CPython's non-strict
 * `binascii.a2b_base64`) reads it back.
 */
module Base64 {
  import opened Options
  import opened Bytes

  type sextet = x: int | 0 <= x < 64

  /** The character that stands for a 6-bit value: A-Z, a-z, 0-9, '+', '/'. */
  function IndexToChar(i: sextet): (c: char)
    ensures IsAlphabetChar(c)
  {
    if i < 26 then ('A' as int + i) as char
    else if i < 52 then ('a' as int + (i - 26)) as char
    else if i < 62 then ('0' as int + (i - 52)) as char
    else if i == 62 then '+'
    else '/'
  }

  predicate IsAlphabetChar(c: char) {
    ('A' <= c <= 'Z') || ('a' <= c <= 'z') || ('0' <= c <= '9') || c == '+' || c == '/'
  }

  /** The 6-bit value of an alphabet character; the inverse of IndexToChar. */
  function CharToIndex(c: char): (i: sextet)
    requires IsAlphabetChar(c)
    ensures IndexToChar(i) == c
  {
    if 'A' <= c <= 'Z' then c as int - 'A' as int
    else if 'a' <= c <= 'z' then c as int - 'a' as int + 26
    else if '0' <= c <= '9' then c as int - '0' as int + 52
    else if c == '+' then 62
    else 63
  }

  lemma IndexRoundTrip(i: sextet)
    ensures CharToIndex(IndexToChar(i)) == i
  {
  }

  /** `b64encode`: each 3 bytes become 4 characters; a short tail is padded with '='. */
  function Encode(bs: seq<byte>): (s: string)
    ensures |s| == (|bs| + 2) / 3 * 4
    ensures forall k :: 0 <= k < |s| ==> IsAlphabetChar(s[k]) || s[k] == '='
  {
    if |bs| == 0 then ""
    else if |bs| == 1 then
      [IndexToChar(bs[0] / 4), IndexToChar(bs[0] % 4 * 16), '=', '=']
    else if |bs| == 2 then
      [IndexToChar(bs[0] / 4), IndexToChar(bs[0] % 4 * 16 + bs[1] / 16), IndexToChar(bs[1] % 16 * 4), '=']
    else
      assert (|bs| + 2) / 3 * 4 == (|bs| - 1) / 3 * 4 + 4;
      EncodeBlock(bs[0], bs[1], bs[2]) + Encode(bs[3..])
  }

  /** The decoder's state between characters: position in the quad, pending bits, pads seen, output. */
  datatype Decoder = Decoder(quadPos: int, leftChar: int, pads: int, out: seq<byte>)

  const Start := Decoder(0, 0, 0, [])

  /** One data character: every character after the first of a quad completes an output byte. */
  function Feed(d: Decoder, v: sextet): Decoder {
    if d.quadPos == 0 then Decoder(1, v, 0, d.out)
    else if d.quadPos == 1 then Decoder(2, v % 16, 0, d.out + [(d.leftChar * 4 + v / 16) % 256])
    else if d.quadPos == 2 then Decoder(3, v % 4, 0, d.out + [(d.leftChar * 16 + v / 4) % 256])
    else Decoder(0, 0, 0, d.out + [(d.leftChar * 64 + v) % 256])
  }

  /**
   * `binascii.a2b_base64` in non-strict mode: characters outside the alphabet are
   * skipped; a '=' counts as padding only from the third character of a quad on,
   * and once the quad is complete with padding, decoding stops; input that ends
   * in the middle of a quad is an error.
   */
  function A2b(s: string, d: Decoder): Option<seq<byte>>
  {
    if s == [] then
      if d.quadPos == 0 then Some(d.out) else None
    else if s[0] == '=' then
      if d.quadPos >= 2 && d.quadPos + d.pads + 1 >= 4 then Some(d.out)
      else A2b(s[1..], if d.quadPos >= 2 then d.(pads := d.pads + 1) else d)
    else if IsAlphabetChar(s[0]) then A2b(s[1..], Feed(d, CharToIndex(s[0])))
    else A2b(s[1..], d)
  }

  /** `b64decode` of a `str`: non-ASCII text is refused before decoding starts. */
  function Decode(s: string): Option<seq<byte>> {
    if exists k :: 0 <= k < |s| && s[k] as int >= 128 then None
    else A2b(s, Start)
  }

  /** Reading one encoded character feeds its 6-bit value to the decoder. */
  lemma ReadChar(i: sextet, rest: string, d: Decoder)
    ensures A2b([IndexToChar(i)] + rest, d) == A2b(rest, Feed(d, i))
  {
    var s := [IndexToChar(i)] + rest;
    assert s[0] == IndexToChar(i) && s[1..] == rest;
    IndexRoundTrip(i);
  }

  /** The bit arithmetic of a block: the decoder's bytes are the encoder's. */
  lemma BlockArithmetic(b0: byte, b1: byte, b2: byte)
    ensures (b0 / 4 * 4 + (b0 % 4 * 16 + b1 / 16) / 16) % 256 == b0
    ensures ((b0 % 4 * 16 + b1 / 16) % 16 * 16 + (b1 % 16 * 4 + b2 / 64) / 4) % 256 == b1
    ensures ((b1 % 16 * 4 + b2 / 64) % 4 * 64 + b2 % 64) % 256 == b2
  {
    var x1, x2 := b0 % 4 * 16 + b1 / 16, b1 % 16 * 4 + b2 / 64;
    assert x1 / 16 == b0 % 4 && x1 % 16 == b1 / 16;
    assert x2 / 4 == b1 % 16 && x2 % 4 == b2 / 64;
    assert b0 / 4 * 4 + b0 % 4 == b0;
    assert b1 / 16 * 16 + b1 % 16 == b1;
    assert b2 / 64 * 64 + b2 % 64 == b2;
  }

  /** The characters `b64encode` writes for a full block of three bytes. */
  function EncodeBlock(b0: byte, b1: byte, b2: byte): string {
    [IndexToChar(b0 / 4), IndexToChar(b0 % 4 * 16 + b1 / 16),
     IndexToChar(b1 % 16 * 4 + b2 / 64), IndexToChar(b2 % 64)]
  }

  /** Encoding works block by block: the bytes at 3 * i become the characters at 4 * i. */
  lemma {:induction false} EncodeBlockAt(bs: seq<byte>, i: nat)
    requires 3 * i + 3 <= |bs|
    ensures Encode(bs)[4 * i..4 * i + 4] == EncodeBlock(bs[3 * i], bs[3 * i + 1], bs[3 * i + 2])
  {
    var block, rest := EncodeBlock(bs[0], bs[1], bs[2]), Encode(bs[3..]);
    EncodeStep(bs);
    if i == 0 {
      assert (block + rest)[0..4] == block;
    } else {
      var tail, k := bs[3..], i - 1;
      EncodeBlockAt(tail, k);
      EncodedLengthCovers(|tail|, k + 1);
      QuadShift(block, rest, k);
      assert tail[3 * k] == bs[3 * i];
      assert tail[3 * k + 1] == bs[3 * i + 1];
      assert tail[3 * k + 2] == bs[3 * i + 2];
    }
  }

  /** The encoding of `n` bytes is long enough for every block they start. */
  lemma EncodedLengthCovers(n: nat, i: nat)
    requires 3 * i <= n + 2
    ensures 4 * i <= (n + 2) / 3 * 4
  {
  }

  /** The `k`-th quad after a four-character block is the `k`-th quad of what follows it. */
  lemma QuadShift(block: string, rest: string, k: nat)
    requires |block| == 4 && 4 * k + 4 <= |rest|
    ensures (block + rest)[4 * k + 4..4 * k + 8] == rest[4 * k..4 * k + 4]
  {
  }

  /** The four characters of a full block give back the three bytes they encode. */
  lemma ReadBlock(b0: byte, b1: byte, b2: byte, rest: string, out: seq<byte>)
    ensures A2b(EncodeBlock(b0, b1, b2) + rest, Decoder(0, 0, 0, out))
         == A2b(rest, Decoder(0, 0, 0, out + [b0, b1, b2]))
  {
    ReadQuad(b0 / 4, b0 % 4 * 16 + b1 / 16, b1 % 16 * 4 + b2 / 64, b2 % 64, rest, Decoder(0, 0, 0, out));
    FeedBlock(b0, b1, b2, out);
  }

  /** Four alphabet characters are fed to the decoder one after the other. */
  lemma ReadQuad(i0: sextet, i1: sextet, i2: sextet, i3: sextet, rest: string, d: Decoder)
    ensures A2b([IndexToChar(i0), IndexToChar(i1), IndexToChar(i2), IndexToChar(i3)] + rest, d)
         == A2b(rest, Feed(Feed(Feed(Feed(d, i0), i1), i2), i3))
  {
    var s3 := [IndexToChar(i3)] + rest;
    var s2 := [IndexToChar(i2)] + s3;
    var s1 := [IndexToChar(i1)] + s2;
    assert [IndexToChar(i0), IndexToChar(i1), IndexToChar(i2), IndexToChar(i3)] + rest == [IndexToChar(i0)] + s1;
    ReadChar(i0, s1, d);
    ReadChar(i1, s2, Feed(d, i0));
    ReadChar(i2, s3, Feed(Feed(d, i0), i1));
    ReadChar(i3, rest, Feed(Feed(Feed(d, i0), i1), i2));
  }

  /** The four sextets of a block, fed from the start of a quad, append the block's bytes. */
  lemma FeedBlock(b0: byte, b1: byte, b2: byte, out: seq<byte>)
    ensures
      var i0, i1, i2, i3 := b0 / 4, b0 % 4 * 16 + b1 / 16, b1 % 16 * 4 + b2 / 64, b2 % 64;
      Feed(Feed(Feed(Feed(Decoder(0, 0, 0, out), i0), i1), i2), i3) == Decoder(0, 0, 0, out + [b0, b1, b2])
  {
    var i0, i1, i2, i3 := b0 / 4, b0 % 4 * 16 + b1 / 16, b1 % 16 * 4 + b2 / 64, b2 % 64;
    var o1 := out + [b0];
    var o2 := o1 + [b1];
    BlockArithmetic(b0, b1, b2);
    var d1 := Decoder(1, i0, 0, out);
    assert Feed(Decoder(0, 0, 0, out), i0) == d1;
    var d2 := Decoder(2, i1 % 16, 0, o1);
    assert Feed(d1, i1) == d2;
    var d3 := Decoder(3, i2 % 4, 0, o2);
    assert Feed(d2, i2) == d3;
    assert Feed(d3, i3) == Decoder(0, 0, 0, o2 + [b2]);
    AppendThree(out, b0, b1, b2);
  }

  lemma FourChars(c0: char, c1: char, c2: char, c3: char)
    ensures [c0, c1, c2, c3] == [c0] + ([c1] + ([c2] + [c3]))
  {
  }

  lemma AppendThree(out: seq<byte>, b0: byte, b1: byte, b2: byte)
    ensures out + [b0] + [b1] + [b2] == out + [b0, b1, b2]
  {
  }

  /** A one-byte tail "xy==" decodes to that byte and ends the input. */
  lemma ReadTail1(b0: byte, out: seq<byte>)
    ensures A2b([IndexToChar(b0 / 4), IndexToChar(b0 % 4 * 16), '=', '='], Decoder(0, 0, 0, out))
         == Some(out + [b0])
  {
    var i0, i1 := b0 / 4, b0 % 4 * 16;
    var pads: string := ['=', '='];
    var s1 := [IndexToChar(i1)] + pads;
    assert [IndexToChar(i0), IndexToChar(i1), '=', '='] == [IndexToChar(i0)] + s1;
    var d0 := Decoder(0, 0, 0, out);
    BlockArithmetic(b0, 0, 0);
    var d1 := Decoder(1, i0, 0, out);
    assert Feed(d0, i0) == d1;
    var d2 := Decoder(2, 0, 0, out + [b0]);
    assert Feed(d1, i1) == d2;
    ReadChar(i0, s1, d0);
    ReadChar(i1, pads, d1);
    assert pads[1..] == ['='];
    assert A2b(pads, d2) == A2b(['='], d2.(pads := 1));
  }

  /** A two-byte tail "xyz=" decodes to those bytes and ends the input. */
  lemma ReadTail2(b0: byte, b1: byte, out: seq<byte>)
    ensures A2b([IndexToChar(b0 / 4), IndexToChar(b0 % 4 * 16 + b1 / 16), IndexToChar(b1 % 16 * 4), '='],
                Decoder(0, 0, 0, out))
         == Some(out + [b0, b1])
  {
    var i0, i1, i2 := b0 / 4, b0 % 4 * 16 + b1 / 16, b1 % 16 * 4;
    var pad: string := ['='];
    var s2 := [IndexToChar(i2)] + pad;
    var s1 := [IndexToChar(i1)] + s2;
    FourChars(IndexToChar(i0), IndexToChar(i1), IndexToChar(i2), '=');
    var o1 := out + [b0];
    var d0 := Decoder(0, 0, 0, out);
    BlockArithmetic(b0, b1, 0);
    var d1 := Decoder(1, i0, 0, out);
    assert Feed(d0, i0) == d1;
    var d2 := Decoder(2, i1 % 16, 0, o1);
    assert Feed(d1, i1) == d2;
    var d3 := Decoder(3, 0, 0, o1 + [b1]);
    assert Feed(d2, i2) == d3;
    assert o1 + [b1] == out + [b0, b1];
    ReadChar(i0, s1, d0);
    ReadChar(i1, s2, d1);
    ReadChar(i2, pad, d2);
  }

  /** An encoding of three bytes or more starts with the encoding of its first block. */
  lemma EncodeStep(bs: seq<byte>)
    requires |bs| >= 3
    ensures Encode(bs) == EncodeBlock(bs[0], bs[1], bs[2]) + Encode(bs[3..])
  {
  }

  /** A one-byte tail decodes to its byte and ends the input. */
  lemma A2bEncodeOne(bs: seq<byte>, out: seq<byte>)
    requires |bs| == 1
    ensures A2b(Encode(bs), Decoder(0, 0, 0, out)) == Some(out + bs)
  {
    assert Encode(bs) == [IndexToChar(bs[0] / 4), IndexToChar(bs[0] % 4 * 16), '=', '='];
    assert out + bs == out + [bs[0]];
    ReadTail1(bs[0], out);
  }

  /** A two-byte tail decodes to its bytes and ends the input. */
  lemma A2bEncodeTwo(bs: seq<byte>, out: seq<byte>)
    requires |bs| == 2
    ensures A2b(Encode(bs), Decoder(0, 0, 0, out)) == Some(out + bs)
  {
    assert Encode(bs) == [IndexToChar(bs[0] / 4), IndexToChar(bs[0] % 4 * 16 + bs[1] / 16), IndexToChar(bs[1] % 16 * 4), '='];
    assert out + bs == out + [bs[0], bs[1]];
    ReadTail2(bs[0], bs[1], out);
  }

  /** A padded tail, or nothing, decodes to its bytes and ends the input. */
  lemma A2bEncodeShort(bs: seq<byte>, out: seq<byte>)
    requires |bs| <= 2
    ensures A2b(Encode(bs), Decoder(0, 0, 0, out)) == Some(out + bs)
  {
    if |bs| == 0 {
      assert out + bs == out;
    } else if |bs| == 1 {
      A2bEncodeOne(bs, out);
    } else {
      A2bEncodeTwo(bs, out);
    }
  }

  /** Taking a block's three bytes off the front of `bs` and appending them to `out`. */
  lemma ShiftBlock(out: seq<byte>, bs: seq<byte>)
    requires |bs| >= 3
    ensures out + [bs[0], bs[1], bs[2]] + bs[3..] == out + bs
  {
    assert bs == [bs[0], bs[1], bs[2]] + bs[3..];
  }

  /** Decoding resumes after each block of an encoding with the block's bytes added to the output. */
  lemma {:induction false} A2bEncode(bs: seq<byte>, out: seq<byte>)
    ensures A2b(Encode(bs), Decoder(0, 0, 0, out)) == Some(out + bs)
  {
    if |bs| <= 2 {
      A2bEncodeShort(bs, out);
    } else {
      var out' := out + [bs[0], bs[1], bs[2]];
      EncodeStep(bs);
      ReadBlock(bs[0], bs[1], bs[2], Encode(bs[3..]), out);
      A2bEncode(bs[3..], out');
      ShiftBlock(out, bs);
    }
  }

  /** `b64decode(b64encode(bs)) == bs` for every byte string. */
  lemma DecodeEncode(bs: seq<byte>)
    ensures Decode(Encode(bs)) == Some(bs)
  {
    var s := Encode(bs);
    forall k | 0 <= k < |s| ensures s[k] as int < 128 {
      assert IsAlphabetChar(s[k]) || s[k] == '=';
    }
    A2bEncode(bs, []);
    assert [] + bs == bs;
  }

  /** The number of alphabet characters in `s`: the only ones the decoder turns into bits. */
  function DataCount(s: string): nat {
    if s == [] then 0 else (if IsAlphabetChar(s[0]) then 1 else 0) + DataCount(s[1..])
  }

  lemma {:induction false} DataCountAppend(a: string, b: string)
    ensures DataCount(a + b) == DataCount(a) + DataCount(b)
  {
    if a == [] {
      assert a + b == b;
    } else {
      assert (a + b)[1..] == a[1..] + b;
      DataCountAppend(a[1..], b);
    }
  }

  /** The data characters among four characters, counted one by one. */
  lemma DataCountQuad(s: string)
    requires |s| == 4
    ensures DataCount(s) == (if IsAlphabetChar(s[0]) then 1 else 0) + (if IsAlphabetChar(s[1]) then 1 else 0)
                          + (if IsAlphabetChar(s[2]) then 1 else 0) + (if IsAlphabetChar(s[3]) then 1 else 0)
  {
    var t1, t2, t3 := s[1..], s[2..], s[3..];
    assert t1[1..] == t2 && t2[1..] == t3 && t3[1..] == [];
    assert t1[0] == s[1] && t2[0] == s[2] && t3[0] == s[3];
    assert DataCount(t3) == (if IsAlphabetChar(s[3]) then 1 else 0);
  }

  /** The bytes that `n` more data characters complete, starting at quad position `q`. */
  function Completed(q: int, n: nat): nat
    requires 0 <= q < 4
    decreases n
  {
    if n == 0 then 0 else (if q == 0 then 0 else 1) + Completed((q + 1) % 4, n - 1)
  }

  lemma {:induction false} CompletedMonotone(q: int, n: nat, m: nat)
    requires 0 <= q < 4 && n <= m
    ensures Completed(q, n) <= Completed(q, m)
    decreases n
  {
    if n > 0 {
      CompletedMonotone((q + 1) % 4, n - 1, m - 1);
    }
  }

  /** The bytes completed by the first four data characters of a quad. */
  lemma CompletedSmall()
    ensures Completed(0, 1) == 0 && Completed(0, 2) == 1 && Completed(0, 3) == 2 && Completed(0, 4) == 3
  {
    assert Completed(0, 0) == 0;
    assert Completed(3, 1) == 1 + Completed(0, 0);
    assert Completed(2, 1) == 1 + Completed(3, 0);
    assert Completed(2, 2) == 1 + Completed(3, 1);
    assert Completed(1, 1) == 1 + Completed(2, 0);
    assert Completed(1, 2) == 1 + Completed(2, 1);
    assert Completed(1, 3) == 1 + Completed(2, 2);
  }

  /** A whole quad of data characters completes three bytes. */
  lemma CompletedQuad(n: nat)
    ensures Completed(0, n + 4) == 3 + Completed(0, n)
  {
    assert Completed(3, n + 1) == 1 + Completed(0, n);
    assert Completed(2, n + 2) == 1 + Completed(3, n + 1);
    assert Completed(1, n + 3) == 1 + Completed(2, n + 2);
  }

  /**
   * Decoding yields at most the bytes its data characters can complete: the
   * skipped characters and the padding add nothing.
   */
  lemma {:induction false} A2bOutputBound(s: string, d: Decoder)
    requires 0 <= d.quadPos < 4
    ensures A2b(s, d).Some? ==> |A2b(s, d).value| <= |d.out| + Completed(d.quadPos, DataCount(s))
    decreases |s|
  {
    if s != [] {
      if s[0] == '=' {
        if !(d.quadPos >= 2 && d.quadPos + d.pads + 1 >= 4) {
          A2bOutputBound(s[1..], if d.quadPos >= 2 then d.(pads := d.pads + 1) else d);
        }
      } else if IsAlphabetChar(s[0]) {
        A2bOutputBound(s[1..], Feed(d, CharToIndex(s[0])));
      } else {
        A2bOutputBound(s[1..], d);
      }
    }
  }

  /** A full block is four data characters. */
  lemma DataCountBlock(b0: byte, b1: byte, b2: byte)
    ensures DataCount(EncodeBlock(b0, b1, b2)) == 4
  {
    DataCountQuad(EncodeBlock(b0, b1, b2));
  }

  /** A padded tail of one or two bytes has one data character more than it has bytes. */
  lemma DataCountShortTail(bs: seq<byte>)
    requires 1 <= |bs| <= 2
    ensures DataCount(Encode(bs)) == |bs| + 1
  {
    DataCountQuad(Encode(bs));
  }

  /** The tight count for a padded tail of one or two bytes. */
  lemma EncodeDataTightShort(bs: seq<byte>)
    requires 1 <= |bs| <= 2
    ensures Completed(0, DataCount(Encode(bs))) == |bs|
    ensures DataCount(Encode(bs)) > 0 && Completed(0, DataCount(Encode(bs)) - 1) < |bs|
  {
    DataCountShortTail(bs);
    if |bs| == 1 {
      CompletedShortTight(2, 1);
    } else {
      CompletedShortTight(3, 2);
    }
  }

  /** One or two bytes need one data character more than they have, and no fewer. */
  lemma CompletedShortTight(c: nat, size: nat)
    requires 1 <= size <= 2 && c == size + 1
    ensures Completed(0, c) == size && Completed(0, c - 1) < size
  {
    CompletedSmall();
    if size == 1 {
      assert c == 2;
    } else {
      assert c == 3;
    }
  }

  /** A block in front adds four data characters and three completed bytes, tightly. */
  lemma CompletedBlockTight(n: nat, size: nat)
    requires Completed(0, n) == size && (n == 0 || Completed(0, n - 1) < size)
    ensures Completed(0, n + 4) == size + 3 && Completed(0, n + 3) < size + 3
  {
    CompletedQuad(n);
    if n == 0 {
      CompletedSmall();
    } else {
      CompletedQuad(n - 1);
      assert n + 3 == (n - 1) + 4;
    }
  }

  /**
   * The data characters of an encoding complete exactly the encoded bytes, and
   * one data character fewer completes fewer.
   */
  lemma {:induction false} EncodeDataTight(bs: seq<byte>)
    requires bs != []
    ensures Completed(0, DataCount(Encode(bs))) == |bs|
    ensures DataCount(Encode(bs)) > 0 && Completed(0, DataCount(Encode(bs)) - 1) < |bs|
    decreases |bs|
  {
    if |bs| <= 2 {
      EncodeDataTightShort(bs);
    } else {
      var tail := bs[3..];
      EncodeStep(bs);
      DataCountBlock(bs[0], bs[1], bs[2]);
      DataCountAppend(EncodeBlock(bs[0], bs[1], bs[2]), Encode(tail));
      if tail == [] {
        CompletedBlockTight(0, 0);
      } else {
        EncodeDataTight(tail);
        CompletedBlockTight(DataCount(Encode(tail)), |tail|);
      }
    }
  }

  /**
   * Losing data characters loses bytes: when a string has fewer data characters
   * than the encoding of `bs`, it cannot decode to `bs`.
   */
  lemma FewerDataCharsDecodeShort(bs: seq<byte>, s: string)
    requires DataCount(s) < DataCount(Encode(bs))
    ensures Decode(s) != Some(bs)
  {
    var n, m := DataCount(s), DataCount(Encode(bs));
    if A2b(s, Start).Some? {
      var out := A2b(s, Start).value;
      A2bOutputBound(s, Start);
      assert bs != [];
      EncodeDataTight(bs);
      FewerCompleteFewer(n, m, |out|, |bs|);
    }
  }

  /** Output bounded by `n` data characters is shorter than what `m > n` of them complete exactly. */
  lemma FewerCompleteFewer(n: nat, m: nat, outLen: nat, size: nat)
    requires n < m && outLen <= Completed(0, n) && Completed(0, m - 1) < size
    ensures outLen < size
  {
    CompletedMonotone(0, n, m - 1);
  }
  /** Encoding a run of whole blocks and then more bytes is encoding each. */
  lemma {:induction false} EncodeConcat(a: seq<byte>, b: seq<byte>)
    requires |a| % 3 == 0
    ensures Encode(a + b) == Encode(a) + Encode(b)
    decreases |a|
  {
    if a == [] {
      assert a + b == b;
    } else {
      WholeBlocksLeft(|a|);
      var ab := a + b;
      assert ab[0] == a[0] && ab[1] == a[1] && ab[2] == a[2];
      assert ab[3..] == a[3..] + b;
      EncodeStep(a);
      EncodeStep(ab);
      EncodeConcat(a[3..], b);
      Associative(EncodeBlock(a[0], a[1], a[2]), Encode(a[3..]), Encode(b));
    }
  }

  lemma Associative(x: string, y: string, z: string)
    ensures x + (y + z) == (x + y) + z
  {
  }

  /** Taking one block off whole blocks leaves whole blocks. */
  lemma WholeBlocksLeft(n: int)
    requires n > 0 && n % 3 == 0
    ensures n >= 3 && (n - 3) % 3 == 0
  {
  }

  /** None of a block's four 6-bit values is 62, the value written '+'. */
  predicate BlockWithoutPlus(b0: byte, b1: byte, b2: byte) {
    b0 / 4 != 62 && b0 % 4 * 16 + b1 / 16 != 62 && b1 % 16 * 4 + b2 / 64 != 62 && b2 % 64 != 62
  }

  /** No block among the whole blocks at the front of `bs` encodes a '+'. */
  predicate BlocksWithoutPlus(bs: seq<byte>)
    decreases |bs|
  {
    |bs| < 3 || (BlockWithoutPlus(bs[0], bs[1], bs[2]) && BlocksWithoutPlus(bs[3..]))
  }

  /** Only the value 62 is written '+'. */
  lemma PlusIsSixtyTwo(i: sextet)
    requires i != 62
    ensures IndexToChar(i) != '+'
  {
    IndexRoundTrip(i);
  }

  /** A block encodes to four alphabet characters, none of them '+' unless one of its values is 62. */
  lemma BlockChars(b0: byte, b1: byte, b2: byte)
    ensures forall k :: 0 <= k < 4 ==> IsAlphabetChar(EncodeBlock(b0, b1, b2)[k])
    ensures BlockWithoutPlus(b0, b1, b2) ==> '+' !in EncodeBlock(b0, b1, b2)
  {
    if BlockWithoutPlus(b0, b1, b2) {
      PlusIsSixtyTwo(b0 / 4);
      PlusIsSixtyTwo(b0 % 4 * 16 + b1 / 16);
      PlusIsSixtyTwo(b1 % 16 * 4 + b2 / 64);
      PlusIsSixtyTwo(b2 % 64);
    }
  }

  /** Whole blocks encode to alphabet characters only, and to no '+' when none of their values is 62. */
  lemma {:induction false} EncodeWholeBlocks(bs: seq<byte>)
    requires |bs| % 3 == 0
    ensures forall k :: 0 <= k < |Encode(bs)| ==> IsAlphabetChar(Encode(bs)[k])
    ensures BlocksWithoutPlus(bs) ==> '+' !in Encode(bs)
    decreases |bs|
  {
    if bs != [] {
      WholeBlocksLeft(|bs|);
      EncodeStep(bs);
      BlockChars(bs[0], bs[1], bs[2]);
      EncodeWholeBlocks(bs[3..]);
      AlphabetConcat(EncodeBlock(bs[0], bs[1], bs[2]), Encode(bs[3..]));
    }
  }

  lemma AlphabetConcat(x: string, y: string)
    requires forall k :: 0 <= k < |x| ==> IsAlphabetChar(x[k])
    requires forall k :: 0 <= k < |y| ==> IsAlphabetChar(y[k])
    ensures forall k :: 0 <= k < |x + y| ==> IsAlphabetChar((x + y)[k])
  {
    forall k | 0 <= k < |x + y| ensures IsAlphabetChar((x + y)[k]) {
      if k >= |x| {
        assert (x + y)[k] == y[k - |x|];
      }
    }
  }

  /** A text of alphabet characters only is all data. */
  lemma {:induction false} DataCountAlphabet(s: string)
    requires forall k :: 0 <= k < |s| ==> IsAlphabetChar(s[k])
    ensures DataCount(s) == |s|
  {
    if s != [] {
      assert forall k :: 0 <= k < |s[1..]| ==> s[1..][k] == s[k + 1];
      DataCountAlphabet(s[1..]);
    }
  }

  /**
   * Input with no padding inside, whose data characters leave one over in the
   * last quad, is refused even when two '=' follow: padding counts only from
   * the third character of a quad on.
   */
  lemma {:induction false} A2bOneLeftOver(s: string, d: Decoder)
    requires '=' !in s && 0 <= d.quadPos < 4
    requires (d.quadPos + DataCount(s)) % 4 == 1
    ensures A2b(s + "==", d) == None
    decreases |s|
  {
    if s == [] {
      assert s + "==" == "==" && "=="[1..] == "=" && "="[1..] == [];
      assert A2b("=", d) == A2b([], d);
    } else {
      assert (s + "==")[1..] == s[1..] + "==";
      assert (s + "==")[0] == s[0];
      assert '=' !in s[1..] by {
        forall k | 0 <= k < |s[1..]| ensures s[1..][k] != '=' {
          assert s[1..][k] == s[k + 1];
        }
      }
      if IsAlphabetChar(s[0]) {
        A2bOneLeftOver(s[1..], Feed(d, CharToIndex(s[0])));
      } else {
        A2bOneLeftOver(s[1..], d);
      }
    }
  }
}
