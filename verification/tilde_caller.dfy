/**
 * A worked call: a caller whose number is "a~" makes `answer` put a '+' into the
 * stream URL's body, which `websocket_endpoint` then fails to decode, so the bot
 * greets the call with the "unknown" caller number.
 */
module TildeCaller {
  import opened Options
  import opened Bytes
  import Json
  import Utf8
  import Base64
  import Server
  import Bot
  import CallLog
  import VerifyDb

  const Call := Server.CallMetadata("unknown", "a~", "unknown")

  /** The JSON text cut where the base64 blocks fall: 9 characters, the 3 holding the tilde, the other 42, the brace. */
  const Head := "{\"from\": "
  const TildeBlock := "\"a~"
  const RestTo := "\", \"to\": " + "\"unknown\""
  const RestUuid := ", \"call_u" + "uid\": " + "\"unknown\""

  /** Printable ASCII without a quote or a backslash: `json.dumps` writes such a string as it is. */
  predicate Plain(s: string) {
    forall k :: 0 <= k < |s| ==> Json.IsPrintableAscii(s[k]) && s[k] != '"' && s[k] != '\\'
  }

  /** The keys and values of the call are plain. */
  lemma PlainWords()
    ensures Plain("from") && Plain("a~") && Plain("to") && Plain("unknown") && Plain("call_uuid")
  {
  }

  /** `json.dumps` of a plain string is the string in double quotes. */
  lemma QuoteLiteral(s: string)
    requires Plain(s)
    ensures Json.Quote(s) == "\"" + s + "\""
  {
    Json.EscapeStringPlain(s);
  }

  /** Moving the parentheses of a concatenation. */
  lemma Regroup(q: string, c: string, t: string, e: string, s: string, x: string, y: string)
    ensures "{" + ((q + c + (t + e)) + s + (x + s + y)) + "}" == ("{" + q + c) + t + ((e + s + x) + (s + y)) + "}"
  {
  }

  /** The pieces of the call's JSON text, written out. */
  lemma TildeText()
    ensures "\"" + "a~" + "\"" == TildeBlock + "\""
  {
  }

  lemma HeadText()
    ensures "{" + ("\"" + "from" + "\"") + ": " == Head
  {
  }

  lemma RestToText()
    ensures "\"" + ", " + (("\"" + "to" + "\"") + ": " + ("\"" + "unknown" + "\"")) == RestTo
  {
  }

  lemma RestUuidText()
    ensures ", " + (("\"" + "call_uuid" + "\"") + ": " + ("\"" + "unknown" + "\"")) == RestUuid
  {
  }

  /** `json.dumps` of a three-key dict: the members joined by ", " inside braces. */
  lemma ThreeMembers(a: (string, string), b: (string, string), c: (string, string))
    ensures Json.DumpObject([a, b, c])
         == "{" + (Json.Member(a.0, a.1) + ", " + (Json.Member(b.0, b.1) + ", " + Json.Member(c.0, c.1))) + "}"
  {
    var ps := [a, b, c];
    assert ps[1..] == [b, c] && ps[1..][1..] == [c];
    assert Json.Members(ps[1..]) == Json.Member(b.0, b.1) + ", " + Json.Member(c.0, c.1);
  }

  /** The JSON text of the call, each string quoted as it is, since none holds a character that needs escaping. */
  lemma CallMembers()
    ensures Server.BodyText(Call)
         == "{" + ((("\"" + "from" + "\"") + ": " + ("\"" + "a~" + "\"")) + ", " + ((("\"" + "to" + "\"") + ": " + ("\"" + "unknown" + "\"")) + ", " + (("\"" + "call_uuid" + "\"") + ": " + ("\"" + "unknown" + "\"")))) + "}"
  {
    PlainWords();
    QuoteLiteral("from");
    QuoteLiteral("a~");
    QuoteLiteral("to");
    QuoteLiteral("unknown");
    QuoteLiteral("call_uuid");
    ThreeMembers(("from", "a~"), ("to", "unknown"), ("call_uuid", "unknown"));
  }

  /** The call's JSON text, cut at the pieces. */
  lemma CallText()
    ensures Server.BodyText(Call) == Head + TildeBlock + (RestTo + RestUuid) + "}"
  {
    CallMembers();
    TildeText();
    HeadText();
    RestToText();
    RestUuidText();
    Regroup(("\"" + "from" + "\""), ": ", TildeBlock, "\"", ", ", (("\"" + "to" + "\"") + ": " + ("\"" + "unknown" + "\"")), (("\"" + "call_uuid" + "\"") + ": " + ("\"" + "unknown" + "\"")));
  }

  /** No whole 3-character block at the front of an ASCII text has a byte pattern that base64 writes with a '+'. */
  predicate TextBlocksWithoutPlus(s: string)
    decreases |s|
  {
    |s| < 3
    || (s[0] as int < 0x80 && s[1] as int < 0x80 && s[2] as int < 0x80
        && Base64.BlockWithoutPlus(s[0] as int, s[1] as int, s[2] as int) && TextBlocksWithoutPlus(s[3..]))
  }

  /** Encoding such a text in UTF-8 keeps one byte per character, so its byte blocks are without '+' too. */
  lemma {:induction false} AsciiBlocks(s: string)
    requires |s| % 3 == 0 && TextBlocksWithoutPlus(s)
    ensures |Utf8.Encode(s)| == |s| && Base64.BlocksWithoutPlus(Utf8.Encode(s))
    decreases |s|
  {
    if s != [] {
      Base64.WholeBlocksLeft(|s|);
      assert s == s[..3] + s[3..];
      Utf8.EncodeAppend(s[..3], s[3..]);
      Utf8.EncodeAscii(s[..3]);
      AsciiBlocks(s[3..]);
      var bs := Utf8.Encode(s);
      assert bs[3..] == Utf8.Encode(s[3..]);
      assert bs[0] == s[0] as int && bs[1] == s[1] as int && bs[2] == s[2] as int;
    }
  }

  /** Whole blocks without '+' followed by blocks without '+'. */
  lemma {:induction false} TextBlocksAppend(a: string, b: string)
    requires |a| % 3 == 0 && TextBlocksWithoutPlus(a) && TextBlocksWithoutPlus(b)
    ensures TextBlocksWithoutPlus(a + b)
    decreases |a|
  {
    if a == [] {
      assert a + b == b;
    } else {
      Base64.WholeBlocksLeft(|a|);
      assert (a + b)[3..] == a[3..] + b;
      TextBlocksAppend(a[3..], b);
    }
  }

  /** The pieces fall on block boundaries. */
  lemma PieceLengths()
    ensures |Head| == 9 && |RestTo| == 18 && |RestUuid| == 24
  {
  }

  /** No block of the pieces around the tilde's block is written with a '+'. */
  lemma HeadWithoutPlus()
    ensures TextBlocksWithoutPlus(Head)
  {
  }

  lemma RestToWithoutPlus()
    ensures TextBlocksWithoutPlus(RestTo)
  {
    assert TextBlocksWithoutPlus("\", \"to\": ");
    assert TextBlocksWithoutPlus("\"unknown\"");
    TextBlocksAppend("\", \"to\": ", "\"unknown\"");
  }
  lemma RestUuidWithoutPlus()
    ensures TextBlocksWithoutPlus(RestUuid)
  {
    assert TextBlocksWithoutPlus(", \"call_u");
    assert TextBlocksWithoutPlus("uid\": ");
    assert TextBlocksWithoutPlus("\"unknown\"");
    TextBlocksAppend(", \"call_u", "uid\": ");
    TextBlocksAppend(", \"call_u" + "uid\": ", "\"unknown\"");
  }

  /** The tilde's block and the closing brace in UTF-8. */
  lemma TildeBlockBytes()
    ensures Utf8.Encode(TildeBlock) == [34, 97, 126]
    ensures Utf8.Encode("}") == [125]
  {
    Utf8.EncodeAscii(TildeBlock);
    Utf8.EncodeAscii("}");
  }

  /** UTF-8 of the pieces put together, for any two runs of whole blocks without '+'. */
  lemma TextBytes(h: string, r: string)
    requires |h| % 3 == 0 && TextBlocksWithoutPlus(h)
    requires |r| % 3 == 0 && TextBlocksWithoutPlus(r)
    ensures Utf8.Encode(h + TildeBlock + r + "}") == Utf8.Encode(h) + [34, 97, 126] + Utf8.Encode(r) + [125]
    ensures |Utf8.Encode(h)| == |h| && Base64.BlocksWithoutPlus(Utf8.Encode(h))
    ensures |Utf8.Encode(r)| == |r| && Base64.BlocksWithoutPlus(Utf8.Encode(r))
  {
    AsciiBlocks(h);
    AsciiBlocks(r);
    TildeBlockBytes();
    Utf8.EncodeAppend(h + TildeBlock + r, "}");
    Utf8.EncodeAppend(h + TildeBlock, r);
    Utf8.EncodeAppend(h, TildeBlock);
  }

  /** The UTF-8 bytes of the call's JSON text: two runs of whole blocks without a '+' around the tilde's block, then the brace. */
  lemma CallBytes()
    ensures Utf8.Encode(Server.BodyText(Call))
         == Utf8.Encode(Head) + [34, 97, 126] + Utf8.Encode(RestTo + RestUuid) + [125]
    ensures |Utf8.Encode(Head)| == 9 && Base64.BlocksWithoutPlus(Utf8.Encode(Head))
    ensures |Utf8.Encode(RestTo + RestUuid)| == 42 && Base64.BlocksWithoutPlus(Utf8.Encode(RestTo + RestUuid))
  {
    CallText();
    PieceLengths();
    HeadWithoutPlus();
    RestToWithoutPlus();
    RestUuidWithoutPlus();
    TextBlocksAppend(RestTo, RestUuid);
    TextBytes(Head, RestTo + RestUuid);
  }

  /** base64 of the tilde's block holds a '+'; the lone brace is written with two pads. */
  lemma BlockEncodings()
    ensures Base64.Encode([34, 97, 126]) == "ImF+"
    ensures Base64.Encode([125]) == "fQ=="
  {
  }

  /** base64 of the call's bytes: the tilde's block is the only one written with a '+'. */
  lemma BytesEncoding(hb: seq<byte>, rb: seq<byte>)
    requires |hb| == 9 && Base64.BlocksWithoutPlus(hb)
    requires |rb| == 42 && Base64.BlocksWithoutPlus(rb)
    ensures Base64.Encode(hb + [34, 97, 126] + rb + [125]) == Base64.Encode(hb) + "ImF+" + Base64.Encode(rb) + "fQ=="
    ensures |Base64.Encode(hb)| == 12 && '+' !in Base64.Encode(hb)
    ensures forall k :: 0 <= k < 12 ==> Base64.IsAlphabetChar(Base64.Encode(hb)[k])
    ensures |Base64.Encode(rb)| == 56 && '+' !in Base64.Encode(rb)
    ensures forall k :: 0 <= k < 56 ==> Base64.IsAlphabetChar(Base64.Encode(rb)[k])
  {
    Base64.EncodeWholeBlocks(hb);
    Base64.EncodeWholeBlocks(rb);
    var ht := hb + [34, 97, 126];
    assert |ht| == 12 && |ht + rb| == 54;
    Base64.EncodeConcat(ht + rb, [125]);
    Base64.EncodeConcat(ht, rb);
    Base64.EncodeConcat(hb, [34, 97, 126]);
    BlockEncodings();
  }

  /** What the query parser hands over: the '+' of the tilde's block has become a space. */
  lemma SpacedBody(eh: string, er: string)
    requires '+' !in eh && '+' !in er
    ensures Server.PlusToSpace(eh + "ImF+" + er + "fQ==") == eh + "ImF " + er + "fQ" + "=="
  {
    Server.PlusToSpaceAppend(eh + "ImF+" + er, "fQ==");
    Server.PlusToSpaceAppend(eh + "ImF+", er);
    Server.PlusToSpaceAppend(eh, "ImF+");
    Server.PlusToSpacePlain(eh);
    Server.PlusToSpacePlain(er);
    assert Server.PlusToSpace("fQ==") == "fQ==";
    assert Server.PlusToSpace("ImF+") == "ImF ";
  }

  /** The spaced text holds 73 data characters, one more than a multiple of four, before its two pads. */
  lemma SpacedDataCount(eh: string, er: string)
    requires |eh| == 12 && forall k :: 0 <= k < 12 ==> Base64.IsAlphabetChar(eh[k])
    requires |er| == 56 && forall k :: 0 <= k < 56 ==> Base64.IsAlphabetChar(er[k])
    ensures Base64.DataCount(eh + "ImF " + er + "fQ") == 73
  {
    Base64.DataCountAppend(eh + "ImF " + er, "fQ");
    Base64.DataCountAppend(eh + "ImF ", er);
    Base64.DataCountAppend(eh, "ImF ");
    Base64.DataCountAlphabet(eh);
    Base64.DataCountAlphabet(er);
    assert Base64.DataCount("ImF ") == 3;
    assert Base64.DataCount("fQ") == 2;
  }

  /** The spaced text holds no pad and nothing outside ASCII. */
  lemma SpacedChars(eh: string, er: string)
    requires |eh| == 12 && forall k :: 0 <= k < 12 ==> Base64.IsAlphabetChar(eh[k])
    requires |er| == 56 && forall k :: 0 <= k < 56 ==> Base64.IsAlphabetChar(er[k])
    ensures forall k :: 0 <= k < |eh + "ImF " + er + "fQ"| ==>
      var c := (eh + "ImF " + er + "fQ")[k]; c != '=' && c as int < 128
  {
    var y := eh + "ImF " + er + "fQ";
    forall k | 0 <= k < |y| ensures y[k] != '=' && y[k] as int < 128 {
      if k < 12 {
        assert y[k] == eh[k];
      } else if k < 16 {
        assert y[k] == "ImF "[k - 12];
      } else if k < 72 {
        assert y[k] == er[k - 16];
      } else {
        assert y[k] == "fQ"[k - 72];
      }
    }
  }

  /** Decoding the spaced text ends with one data character left over in the last quad, so it fails. */
  lemma SpacedDecodeFails(eh: string, er: string)
    requires |eh| == 12 && forall k :: 0 <= k < 12 ==> Base64.IsAlphabetChar(eh[k])
    requires |er| == 56 && forall k :: 0 <= k < 56 ==> Base64.IsAlphabetChar(er[k])
    ensures Base64.Decode(eh + "ImF " + er + "fQ" + "==") == None
  {
    var y := eh + "ImF " + er + "fQ";
    SpacedDataCount(eh, er);
    SpacedChars(eh, er);
    Base64.A2bOneLeftOver(y, Base64.Start);
    var z := y + "==";
    forall k | 0 <= k < |z| ensures z[k] as int < 128 {
      if k < |y| {
        assert z[k] == y[k];
      }
    }
  }

  /** The body parameter the query parser yields for the call is not valid base64. */
  lemma CallBodyUndecodable()
    ensures Base64.Decode(Server.PlusToSpace(Server.EncodeBody(Call))) == None
  {
    CallBytes();
    var hb, rb := Utf8.Encode(Head), Utf8.Encode(RestTo + RestUuid);
    BytesEncoding(hb, rb);
    var eh, er := Base64.Encode(hb), Base64.Encode(rb);
    SpacedBody(eh, er);
    SpacedDecodeFails(eh, er);
  }

  /**
   * The call's end to end: the body `answer` writes for a caller "a~" does not decode
   * in `websocket_endpoint` as written, so the bot hears "unknown"; with the '+'
   * restored before decoding, the bot hears "a~".
   */
  lemma TildeCallerIsUnknown()
    ensures Server.WebSocketBodyAsWritten(Server.QueryParams(Server.StreamTarget(Call))) == None
    ensures Bot.CallerNumber(Server.WebSocketBodyAsWritten(Server.QueryParams(Server.StreamTarget(Call)))) == "unknown"
    ensures Bot.CallerNumber(Server.WebSocketBody(Server.QueryParams(Server.StreamTarget(Call)))) == "a~"
  {
    CallBodyUndecodable();
    Server.StreamTargetParams(Call);
    Server.MetadataReachesBot(Call);
  }

  /**
   * The call log row of that call, as the bot writes it, fails the verification
   * script's caller check; with the correction it passes.
   */
  lemma TildeCallerFailsCallerCheck(logId: int, asWritten: CallLog.CallRecord, corrected: CallLog.CallRecord)
    requires asWritten.callerNumber == Bot.CallerNumber(Server.WebSocketBodyAsWritten(Server.QueryParams(Server.StreamTarget(Call))))
    requires corrected.callerNumber == Bot.CallerNumber(Server.WebSocketBody(Server.QueryParams(Server.StreamTarget(Call))))
    ensures !VerifyDb.HasCaller(VerifyDb.RowOf(logId, asWritten))
    ensures VerifyDb.HasCaller(VerifyDb.RowOf(logId, corrected))
  {
    TildeCallerIsUnknown();
  }
}
