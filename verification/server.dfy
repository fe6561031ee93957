/**
 * The web server's own logic: how the Plivo answer URL builds the streaming
 * endpoint with the call metadata packed into its query string, how the
 * websocket endpoint reads that metadata back, and how an outbound call request
 * is validated.
 */
module Server {
  import opened Options
  import opened Bytes
  import opened Text
  import Base64
  import Utf8
  import Json
  import Bot

  /** Python truthiness of an optional text: absent and "" are both false. */
  predicate Truthy(v: Option<string>) {
    v.Some? && v.value != ""
  }

  datatype HttpMethod = Get | Post

  /**
   * What `answer` reads from its request: the method, the query parameters and
   * form fields (each a dict in which a repeated name keeps its last value),
   * the URL scheme and the Host header, if any.
   */
  datatype AnswerRequest = AnswerRequest(
    httpMethod: HttpMethod,
    query: map<string, string>,
    form: map<string, string>,
    urlScheme: string,
    host: Option<string>)

  /** The parameters `answer` reads: the query, with the form laid over it on a POST. */
  function MergedParams(req: AnswerRequest): (params: map<string, string>)
    ensures forall k :: k in params <==> k in req.query || (req.httpMethod == Post && k in req.form)
    ensures forall k :: k in params ==>
      params[k] == if req.httpMethod == Post && k in req.form then req.form[k] else req.query[k]
  {
    if req.httpMethod == Post then req.query + req.form else req.query
  }

  /** The three facts about a call that travel to the bot. */
  datatype CallMetadata = CallMetadata(callUuid: string, caller: string, callee: string)

  /** `params.get(key, "unknown")`. */
  function GetOrUnknown(params: map<string, string>, key: string): string {
    if key in params then params[key] else "unknown"
  }

  /** The metadata of a call: each field is the parameter sent, or "unknown" when none was. */
  function MetadataOf(params: map<string, string>): (m: CallMetadata)
    ensures "CallUUID" in params ==> m.callUuid == params["CallUUID"]
    ensures "From" in params ==> m.caller == params["From"]
    ensures "To" in params ==> m.callee == params["To"]
    ensures m.callUuid == "unknown" <==> "CallUUID" !in params || params["CallUUID"] == "unknown"
    ensures m.caller == "unknown" <==> "From" !in params || params["From"] == "unknown"
    ensures m.callee == "unknown" <==> "To" !in params || params["To"] == "unknown"
  {
    CallMetadata(GetOrUnknown(params, "CallUUID"), GetOrUnknown(params, "From"), GetOrUnknown(params, "To"))
  }

  /** The websocket scheme that matches the request's own scheme. */
  function WsScheme(urlScheme: string): string {
    if urlScheme == "https" then "wss" else "ws"
  }

  /**
   * The websocket base URL: the Railway domain over TLS when one is configured,
   * whatever the request looked like; otherwise the request's host (default
   * "localhost:8000") under the scheme matching the request.
   */
  function WsBase(railwayDomain: Option<string>, urlScheme: string, host: Option<string>): (base: string)
    ensures |base| >= 5 && (base[..5] == "ws://" || base[..5] == "wss:/")
    ensures Truthy(railwayDomain) ==> |base| >= 6 && base[6..] == railwayDomain.value
    ensures !Truthy(railwayDomain) ==>
      var authority := host.GetOr("localhost:8000");
      |base| >= |authority| && base[|base| - |authority|..] == authority
  {
    if Truthy(railwayDomain) then "wss://" + railwayDomain.value
    else WsScheme(urlScheme) + "://" + host.GetOr("localhost:8000")
  }

  /** The stream is encrypted exactly when a Railway domain is configured or the request came over https. */
  lemma WsBaseSecure(railwayDomain: Option<string>, urlScheme: string, host: Option<string>)
    ensures var base := WsBase(railwayDomain, urlScheme, host);
      (|base| >= 6 && base[..6] == "wss://") <==> Truthy(railwayDomain) || urlScheme == "https"
  {
    var base := WsBase(railwayDomain, urlScheme, host);
    if !Truthy(railwayDomain) && urlScheme != "https" {
      assert base[2] == ':';
    }
  }

  /** A configured domain overrides the request: its scheme and host make no difference then. */
  lemma WsBaseDomainOverrides(railwayDomain: Option<string>, scheme1: string, host1: Option<string>, scheme2: string, host2: Option<string>)
    requires Truthy(railwayDomain)
    ensures WsBase(railwayDomain, scheme1, host1) == WsBase(railwayDomain, scheme2, host2)
  {
  }

  /** The JSON object `answer` sends, with its keys in insertion order. */
  function BodyPairs(m: CallMetadata): seq<(string, string)> {
    [("from", m.caller), ("to", m.callee), ("call_uuid", m.callUuid)]
  }

  /** `json.dumps(body_data)`. */
  function BodyText(m: CallMetadata): string {
    Json.DumpObject(BodyPairs(m))
  }

  /** `base64.b64encode(json.dumps(body_data).encode()).decode()`. */
  function EncodeBody(m: CallMetadata): (b64: string)
    ensures forall k :: 0 <= k < |b64| ==> Base64.IsAlphabetChar(b64[k]) || b64[k] == '='
  {
    Base64.Encode(Utf8.Encode(BodyText(m)))
  }

  const StreamPath := "/ws?body="

  /** The request target the streaming client asks for: the path and query of the stream URL. */
  function StreamTarget(m: CallMetadata): string {
    StreamPath + EncodeBody(m)
  }

  /** The websocket URL put into the answer XML. */
  function StreamEndpoint(wsBase: string, m: CallMetadata): string {
    wsBase + StreamPath + EncodeBody(m)
  }

  /** The XML document `answer` returns around the stream URL. */
  function AnswerXml(endpoint: string): string {
    "<?xml version=\"1.0\" encoding=\"UTF-8\"?>\n<Response>\n"
    + "    <Stream bidirectional=\"true\" keepCallAlive=\"true\" contentType=\"audio/x-mulaw;rate=8000\">\n"
    + "        " + endpoint + "\n"
    + "    </Stream>\n</Response>"
  }

  /**
   * `answer`: merges the parameters, fills in the metadata, picks the websocket
   * base and returns the XML with the stream URL that carries the metadata.
   */
  method Answer(req: AnswerRequest, railwayDomain: Option<string>) returns (xml: string, endpoint: string)
    ensures endpoint == StreamEndpoint(WsBase(railwayDomain, req.urlScheme, req.host), MetadataOf(MergedParams(req)))
    ensures xml == AnswerXml(endpoint)
  {
    var params := req.query;
    if req.httpMethod == Post {
      params := params + req.form;
    }
    var m := MetadataOf(params);
    var wsUrl := WsBase(railwayDomain, req.urlScheme, req.host);
    endpoint := wsUrl + StreamPath + EncodeBody(m);
    xml := AnswerXml(endpoint);
  }

  /** `s.replace('+', ' ')`. */
  function PlusToSpace(s: string): (r: string)
    ensures |r| == |s|
    ensures forall k :: 0 <= k < |s| ==> r[k] == if s[k] == '+' then ' ' else s[k]
  {
    if s == [] then [] else [if s[0] == '+' then ' ' else s[0]] + PlusToSpace(s[1..])
  }

  /** `urllib.parse.unquote` for escapes of ASCII characters: "%XX" (either case of hex digit) becomes that character. */
  function PercentDecode(s: string): string {
    if |s| >= 3 && s[0] == '%' && Json.IsHexChar(s[1]) && Json.IsHexChar(s[2])
       && Json.HexValue(s[1]) < 8
    then [(Json.HexValue(s[1]) * 16 + Json.HexValue(s[2])) as char] + PercentDecode(s[3..])
    else if s == [] then []
    else [s[0]] + PercentDecode(s[1..])
  }

  /** A text without '%' has no escapes to decode. */
  lemma {:induction false} PercentDecodePlain(s: string)
    requires '%' !in s
    ensures PercentDecode(s) == s
  {
    if s != [] {
      PercentDecodePlain(s[1..]);
      assert [s[0]] + s[1..] == s;
    }
  }

  /** How `parse_qsl` reads one name or value: '+' is a space, then escapes are decoded. */
  function FormUnquote(s: string): string {
    PercentDecode(PlusToSpace(s))
  }

  /**
   * The name/value pairs of a query string, as `parse_qsl` with blank values kept
   * lists them: fields are split at '&', empty fields are skipped, and a field
   * without '=' has an empty value.
   */
  function QueryPairs(fields: seq<string>): seq<(string, string)> {
    if fields == [] then []
    else if fields[0] == "" then QueryPairs(fields[1..])
    else
      var (name, value) := SplitOnce(fields[0], '=');
      [(FormUnquote(name), FormUnquote(value.GetOr("")))] + QueryPairs(fields[1..])
  }

  /** Starlette's `query_params` of a request target: the text after the first '?', a repeated name keeping its last value. */
  function QueryParams(target: string): map<string, string> {
    Json.ToMap(map[], QueryPairs(Split(SplitOnce(target, '?').1.GetOr(""), '&')))
  }

  /** `base64.b64decode(body_b64).decode()` and then `json.loads`: the metadata dict, or None if any step fails. */
  function DecodeBody(b64: string): Option<map<string, string>> {
    match Base64.Decode(b64)
    case None => None
    case Some(bs) =>
      match Utf8.Decode(bs)
      case None => None
      case Some(text) => Json.ParseObject(text)
  }

  /** `websocket_endpoint` as written: the `body` parameter decoded as it arrives, None when absent or undecodable. */
  function WebSocketBodyAsWritten(params: map<string, string>): Option<map<string, string>> {
    if "body" in params then DecodeBody(params["body"]) else None
  }

  /** `s.replace(' ', '+')`: puts back the '+' characters the query parser turned into spaces. */
  function SpaceToPlus(s: string): (r: string)
    ensures |r| == |s|
    ensures forall k :: 0 <= k < |s| ==> r[k] == if s[k] == ' ' then '+' else s[k]
  {
    if s == [] then [] else [if s[0] == ' ' then '+' else s[0]] + SpaceToPlus(s[1..])
  }

  /**
   * `websocket_endpoint` with the `body` parameter's spaces turned back into
   * '+' before decoding; otherwise as written.
   */
  function WebSocketBody(params: map<string, string>): Option<map<string, string>> {
    if "body" in params then DecodeBody(SpaceToPlus(params["body"])) else None
  }

  /** The dict `answer` encodes. */
  function MetadataDict(m: CallMetadata): map<string, string> {
    map["from" := m.caller, "to" := m.callee, "call_uuid" := m.callUuid]
  }

  /** Decoding the body inverts its encoding: base64, UTF-8 and JSON each round-trip. */
  lemma DecodeEncodeBody(m: CallMetadata)
    ensures DecodeBody(EncodeBody(m)) == Some(MetadataDict(m))
  {
    var pairs := BodyPairs(m);
    var text := BodyText(m);
    var bs := Utf8.Encode(text);
    Base64.DecodeEncode(bs);
    Utf8.DecodeEncode(text);
    Json.ParseDump(pairs);
    assert DecodeBody(EncodeBody(m)) == Json.ParseObject(text);
    BodyPairsMap(m);
  }

  /** Inserting the three pairs in order gives the three-key dict. */
  lemma BodyPairsMap(m: CallMetadata)
    ensures Json.ToMap(map[], BodyPairs(m)) == MetadataDict(m)
  {
    var pairs := BodyPairs(m);
    var a1 := map["from" := m.caller];
    var a2 := a1["to" := m.callee];
    var a3 := a2["call_uuid" := m.callUuid];
    assert pairs[1..] == [("to", m.callee), ("call_uuid", m.callUuid)];
    assert pairs[1..][1..] == [("call_uuid", m.callUuid)];
    assert Json.ToMap(a3, pairs[1..][1..][1..]) == a3;
    assert Json.ToMap(a2, pairs[1..][1..]) == a3;
    assert Json.ToMap(a1, pairs[1..]) == a3;
  }

  /** `parse_qsl` reads "body" as itself. */
  lemma FormUnquoteBodyName()
    ensures FormUnquote("body") == "body"
  {
    assert PlusToSpace("body") == "body";
    PercentDecodePlain("body");
  }

  /** The query string of "/ws?body=" followed by a value is "body=" and the value. */
  lemma TargetQuery(v: string)
    ensures SplitOnce(StreamPath + v, '?').1 == Some("body=" + v)
  {
    assert StreamPath + v == "/ws" + ['?'] + ("body=" + v);
    SplitOnceAt("/ws", '?', "body=" + v);
  }

  /** "body=" and a value without '&' is a single field. */
  lemma BodyField(v: string)
    requires '&' !in v
    ensures Split("body=" + v, '&') == ["body=" + v]
  {
    var query := "body=" + v;
    forall k | 0 <= k < |query| ensures query[k] != '&' {
      if k >= 5 {
        assert query[k] == v[k - 5];
      }
    }
    SplitNoSeparator(query, '&');
  }

  /** The field "body=" and a value without '%' is the pair ("body", value with '+' read as space). */
  lemma BodyPair(v: string)
    requires '%' !in v
    ensures QueryPairs(["body=" + v]) == [("body", PlusToSpace(v))]
  {
    var query := "body=" + v;
    assert query == "body" + ['='] + v;
    SplitOnceAt("body", '=', v);
    SingleField(query);
    FormUnquoteBodyName();
    FormUnquoteNoPercent(v);
  }

  /** A single non-empty field is a single pair. */
  lemma SingleField(field: string)
    requires field != ""
    ensures QueryPairs([field])
         == [(FormUnquote(SplitOnce(field, '=').0), FormUnquote(SplitOnce(field, '=').1.GetOr("")))]
  {
    assert [field][1..] == [];
  }

  /** Without '%', form unquoting only reads '+' as space. */
  lemma FormUnquoteNoPercent(v: string)
    requires '%' !in v
    ensures FormUnquote(v) == PlusToSpace(v)
  {
    var received := PlusToSpace(v);
    forall k | 0 <= k < |received| ensures received[k] != '%' {
      assert v[k] != '%';
    }
    PercentDecodePlain(received);
  }

  /** The query parameters of "/ws?body=" followed by a value with no '&' and no '%': that one value, '+' read as space. */
  lemma BodyParam(v: string)
    requires '&' !in v && '%' !in v
    ensures QueryParams(StreamPath + v) == map["body" := PlusToSpace(v)]
  {
    var query := SplitOnce(StreamPath + v, '?').1.GetOr("");
    TargetQuery(v);
    assert query == "body=" + v;
    BodyField(v);
    BodyPair(v);
    var pairs := [("body", PlusToSpace(v))];
    assert QueryPairs(Split(query, '&')) == pairs;
    assert pairs[1..] == [];
    assert Json.ToMap(map[], pairs) == Json.ToMap(map["body" := PlusToSpace(v)], []);
  }

  /** The query parameters of the stream target: one `body` parameter, as `parse_qsl` reads it. */
  lemma StreamTargetParams(m: CallMetadata)
    ensures QueryParams(StreamTarget(m)) == map["body" := PlusToSpace(EncodeBody(m))]
  {
    var b64 := EncodeBody(m);
    forall k | 0 <= k < |b64| ensures b64[k] != '&' && b64[k] != '%' && b64[k] != ' ' {
      assert Base64.IsAlphabetChar(b64[k]) || b64[k] == '=';
    }
    BodyParam(b64);
  }

  /** Turning the spaces back into '+' restores any text that had no spaces of its own. */
  lemma SpaceToPlusRestores(s: string)
    requires ' ' !in s
    ensures SpaceToPlus(PlusToSpace(s)) == s
  {
    var r := SpaceToPlus(PlusToSpace(s));
    assert forall k :: 0 <= k < |s| ==> r[k] == s[k];
  }

  /**
   * With the spaces turned back, the metadata `answer` sends is the metadata
   * `websocket_endpoint` hands to the bot, so the bot tracks the real caller.
   */
  lemma MetadataReachesBot(m: CallMetadata)
    ensures WebSocketBody(QueryParams(StreamTarget(m))) == Some(MetadataDict(m))
    ensures Bot.CallerNumber(WebSocketBody(QueryParams(StreamTarget(m)))) == m.caller
  {
    var b64 := EncodeBody(m);
    var params := QueryParams(StreamTarget(m));
    StreamTargetParams(m);
    assert params["body"] == PlusToSpace(b64);
    forall k | 0 <= k < |b64| ensures b64[k] != ' ' {
      assert Base64.IsAlphabetChar(b64[k]) || b64[k] == '=';
    }
    SpaceToPlusRestores(b64);
    assert WebSocketBody(params) == DecodeBody(b64);
    DecodeEncodeBody(m);
    MetadataDictCaller(m);
  }

  /** The bot finds the caller under "from" in the metadata dict. */
  lemma MetadataDictCaller(m: CallMetadata)
    ensures Bot.CallerNumber(Some(MetadataDict(m))) == m.caller
  {
    var d := MetadataDict(m);
    assert "from" != "to" && "from" != "call_uuid";
    assert "from" in d && d["from"] == m.caller;
  }

  /** The query parser's '+'-to-space turns data characters into skipped ones. */
  lemma {:induction false} PlusToSpaceLosesData(s: string)
    ensures Base64.DataCount(PlusToSpace(s)) <= Base64.DataCount(s)
    ensures '+' in s ==> Base64.DataCount(PlusToSpace(s)) < Base64.DataCount(s)
  {
    if s != [] {
      PlusToSpaceLosesData(s[1..]);
      assert PlusToSpace(s)[1..] == PlusToSpace(s[1..]);
      if s[0] != '+' {
        assert '+' in s ==> '+' in s[1..];
      }
    }
  }

  /**
   * As written, a body whose base64 contains '+' does not survive the trip: the
   * bytes `websocket_endpoint` decodes are not the bytes `answer` encoded.
   */
  lemma AsWrittenLosesPlus(m: CallMetadata)
    requires '+' in EncodeBody(m)
    ensures "body" in QueryParams(StreamTarget(m))
    ensures Base64.Decode(QueryParams(StreamTarget(m))["body"]) != Some(Utf8.Encode(BodyText(m)))
  {
    StreamTargetParams(m);
    PlusToSpaceLosesData(EncodeBody(m));
    Base64.FewerDataCharsDecodeShort(Utf8.Encode(BodyText(m)), PlusToSpace(EncodeBody(m)));
  }

  /**
   * Such bodies occur: a caller number whose second character is '~' puts a '+'
   * at the fourth character of the fourth base64 block.
   */
  lemma TildeCallerEncodesPlus(m: CallMetadata)
    requires |m.caller| >= 2 && m.caller[1] == '~'
    requires Json.IsPrintableAscii(m.caller[0]) && m.caller[0] != '"' && m.caller[0] != '\\'
    ensures '+' in EncodeBody(m)
  {
    var text := BodyText(m);
    BodyTextTilde(m);
    Json.DumpObjectAscii(BodyPairs(m));
    assert forall k :: 0 <= k < |text| ==> text[k] as int < 0x80 by {
      forall k | 0 <= k < |text| ensures text[k] as int < 0x80 {
        assert Json.IsPrintableAscii(text[k]);
      }
    }
    Utf8.EncodeAscii(text);
    PlusInFourthBlock(Utf8.Encode(text));
  }

  /** A byte at 11 whose low six bits are 62 becomes the '+' at 15 of the encoding. */
  lemma PlusInFourthBlock(bs: seq<byte>)
    requires |bs| >= 12 && bs[11] == 126
    ensures '+' in Base64.Encode(bs)
  {
    var e := Base64.Encode(bs);
    Base64.EncodeBlockAt(bs, 3);
    BlockEndsInPlus(bs[9], bs[10], bs[11]);
    assert e[15] == e[12..16][3];
  }

  /** A block whose last byte has 62 as its low six bits ends in '+'. */
  lemma BlockEndsInPlus(b0: byte, b1: byte, b2: byte)
    requires b2 % 64 == 62
    ensures Base64.EncodeBlock(b0, b1, b2)[3] == '+'
  {
  }

  /** The twelfth character of the body text is the caller's second character, unescaped. */
  lemma BodyTextTilde(m: CallMetadata)
    requires |m.caller| >= 2 && m.caller[1] == '~'
    requires Json.IsPrintableAscii(m.caller[0]) && m.caller[0] != '"' && m.caller[0] != '\\'
    ensures |BodyText(m)| >= 12 && BodyText(m)[11] == '~'
  {
    var pairs := BodyPairs(m);
    var member := Json.Member("from", m.caller);
    MemberTilde(m.caller);
    DumpHead(pairs, member);
  }

  /** The character at `i` of a member is the character at `i + 1` of an object that starts with that member. */
  lemma DumpHead(pairs: seq<(string, string)>, member: string)
    requires |pairs| >= 2 && member == Json.Member(pairs[0].0, pairs[0].1)
    ensures forall i :: 0 <= i < |member| ==> i + 1 < |Json.DumpObject(pairs)| && Json.DumpObject(pairs)[i + 1] == member[i]
  {
    var members := Json.Members(pairs);
    var d := Json.DumpObject(pairs);
    assert members == member + ", " + Json.Members(pairs[1..]);
    assert d == "{" + members + "}";
    forall i | 0 <= i < |member| ensures i + 1 < |d| && d[i + 1] == member[i] {
      assert d[i + 1] == ("{" + members)[i + 1] == members[i];
      assert members[i] == (member + ", ")[i];
    }
  }

  /** In the "from" member, the caller's second character is the eleventh character. */
  lemma MemberTilde(c: string)
    requires |c| >= 2 && c[1] == '~'
    requires Json.IsPrintableAscii(c[0]) && c[0] != '"' && c[0] != '\\'
    ensures |Json.Member("from", c)| >= 11 && Json.Member("from", c)[10] == '~'
  {
    Json.EscapeStringPlain("from");
    assert |Json.Quote("from")| == 6;
    QuotedTilde(c);
  }

  lemma QuotedTilde(c: string)
    requires |c| >= 2 && c[1] == '~'
    requires Json.IsPrintableAscii(c[0]) && c[0] != '"' && c[0] != '\\'
    ensures |Json.Quote(c)| >= 3 && Json.Quote(c)[2] == '~'
  {
    assert Json.EscapeString(c) == [c[0]] + Json.EscapeString(c[1..]);
    assert Json.EscapeString(c[1..])[0] == '~';
  }

  /** `call`'s result, before the call is placed: a rejection with its status code, or the call to place. */
  datatype CallDecision =
    | Rejected(status: int, error: string)
    | Dial(from: string, to: string, answerUrl: string)

  /** The Plivo settings `call` reads from the environment. */
  datatype PlivoEnv = PlivoEnv(
    authId: Option<string>,
    authToken: Option<string>,
    phoneNumber: Option<string>,
    railwayDomain: Option<string>)

  /** The answer URL handed to Plivo for an outbound call. */
  function CallAnswerUrl(railwayDomain: Option<string>): string {
    if Truthy(railwayDomain) then "https://" + railwayDomain.value + "/answer"
    else "http://localhost:8000/answer"
  }

  /**
   * `call`: a missing or empty `to` is a 400 before anything else is looked at;
   * then a missing credential or source number is a 500; otherwise the call is
   * placed from the configured number to `to`.
   */
  function DecideCall(to: Option<string>, env: PlivoEnv): (d: CallDecision)
    ensures d.Rejected? && d.status == 400 <==> !Truthy(to)
    ensures d.Rejected? && d.status == 500 <==>
      Truthy(to) && !(Truthy(env.authId) && Truthy(env.authToken) && Truthy(env.phoneNumber))
    ensures d.Dial? <==> Truthy(to) && Truthy(env.authId) && Truthy(env.authToken) && Truthy(env.phoneNumber)
    ensures d.Dial? ==> d.to == to.value && d.from == env.phoneNumber.value
    ensures d.Dial? ==> d.answerUrl == CallAnswerUrl(env.railwayDomain)
  {
    if !Truthy(to) then Rejected(400, "Missing 'to' field")
    else if !(Truthy(env.authId) && Truthy(env.authToken) && Truthy(env.phoneNumber)) then
      Rejected(500, "Plivo credentials not configured")
    else Dial(env.phoneNumber.value, to.value, CallAnswerUrl(env.railwayDomain))
  }

  /**
   * The outbound answer URL always names the `/answer` route: under the configured
   * domain over https when one is set, otherwise on the local development server.
   */
  lemma CallAnswerUrlShape(railwayDomain: Option<string>)
    ensures var url := CallAnswerUrl(railwayDomain);
      |url| >= 7 && url[|url| - 7..] == "/answer"
      && ((|url| >= 8 && url[..8] == "https://") <==> Truthy(railwayDomain))
      && (Truthy(railwayDomain) ==> url[8..|url| - 7] == railwayDomain.value)
      && (!Truthy(railwayDomain) ==> url[..|url| - 7] == "http://localhost:8000")
  {
    var url := CallAnswerUrl(railwayDomain);
    if !Truthy(railwayDomain) {
      assert url[4] == ':';
    }
  }
  /** Form decoding works character by character, so it distributes over concatenation. */
  lemma {:induction false} PlusToSpaceAppend(a: string, b: string)
    ensures PlusToSpace(a + b) == PlusToSpace(a) + PlusToSpace(b)
    decreases |a|
  {
    if a == [] {
      assert a + b == b;
    } else {
      assert (a + b)[0] == a[0] && (a + b)[1..] == a[1..] + b;
      PlusToSpaceAppend(a[1..], b);
    }
  }

  /** A text without '+' is left as it is. */
  lemma PlusToSpacePlain(s: string)
    requires '+' !in s
    ensures PlusToSpace(s) == s
  {
    var r := PlusToSpace(s);
    forall k | 0 <= k < |s| ensures r[k] == s[k] {
      assert s[k] != '+';
    }
  }

}
