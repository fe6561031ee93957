# pipecat-receptionist, modelled in Dafny

An AI phone receptionist takes a call through one of two routes. In the first, Plivo calls `/answer`. The server answers with XML that streams the call's audio to its `/ws` websocket, packing the call metadata into the stream URL. The Pipecat bot then tracks the call in a `CallTracker`. In the second route, the call arrives through LiveKit, where a `Receptionist` agent tracks it. Either way, the finished call is written to a call log table as one row `(caller_number, transcript, detected_intent, duration)`. Two scripts inspect the deployment:
- one checks that recent rows are complete;
- the other classifies the answer URL configured on each Plivo number.

This project models the logic those files own and proves what it promises:

| file | module | what it holds |
|---|---|---|
| `common.dfy` | `Options`, `Bytes` | `Option`, the byte type |
| `text.dfy` | `Text` | the Python `str` operations the code relies on: `strip`, `lower`, `in`, `join`, `split` |
| `base64.dfy` | `Base64` | the alphabet of section 4 of RFC 4648. It holds `b64encode` and the non-strict `b64decode`, which skips characters outside the alphabet. |
| `utf8.dfy` | `Utf8` | `str.encode()` and `bytes.decode()` as UTF-8 |
| `json.dfy` | `Json` | `json.dumps` with its default ASCII escaping, and `json.loads` for flat objects of strings (RFC 8259) |
| `call_log.dfy` | `CallLog` | the logged record and `int(now - start)` |
| `bot.dfy` | `Bot` | `CallTracker`, the four tool handlers, the transcript filter, the caller number the bot reads from the body |
| `livekit_agent.dfy` | `LiveKitAgent` | `Receptionist`'s state and tools, the FAQ lookup, department routing, close-time rendering, SIP caller selection |
| `server.dfy` | `Server` | `/answer` and its parameters, the websocket URL and body, the query-string parsing the websocket sees, the body decoding, `/call` validation |
| `verify_db.dfy` | `VerifyDb` | the four per-row checks and the `all_valid` fold |
| `verify_plivo.dfy` | `VerifyPlivo` | answer-URL classification and the configured-number marker |
| `tilde_caller.dfy` | `TildeCaller` | one `/answer` call, from the number `a~`, followed through the websocket to the bot's caller number |

Timestamps are `real` seconds supplied by the caller, so that `int(...)` truncation toward zero is explicit. The environment variables are `Option<string>`, and Python truthiness treats both `None` and `""` as false. The Plivo script compares the configured number with `==`, so there it is a `PyValue`, a string or `None`, as are the fields of a number listing entry, which can also be absent.

## Model

| member | source | states |
|---|---|---|
| `Text.Strip` | bot.py:235 | `str.strip()`: a non-empty result neither starts nor ends with whitespace |
| `Text.StripBlank` | bot.py:235-236 | the stripped text is empty exactly when every character is whitespace |
| `Text.StripIdempotent` | bot.py:235 | stripping twice is stripping once |
| `Text.StripUnpadded` | bot.py:235 | text with no whitespace at either end is left unchanged |
| `Text.TrimLeft` | bot.py:235 | the removed prefix is all whitespace, and what remains starts with a non-space |
| `Text.TrimRight` | bot.py:235 | the removed suffix is all whitespace, and what remains ends with a non-space |
| `Text.Lower` | livekit_agent.py:104 | `str.lower()` keeps the length and lowers each character in place |
| `Text.LowerIdempotent` | livekit_agent.py:104 | lowering twice is lowering once, and the result is lower case |
| `Text.Contains` | livekit_agent.py:106 | `sub in s` holds iff `sub` occurs in `s` at some index |
| `Text.LowerKeepsLowerOccurrence` | verify_plivo.py:50 | a lower-case word occurring in a string also occurs, at the same index, in its lowercased form |
| `Text.Join` | bot.py:113 | `sep.join(parts)` (no contract; see `JoinAppend`, `SplitJoin`) |
| `Text.JoinAppend` | bot.py:113 | joining one more part adds one separator and the part, and adds no separator to an empty list |
| `Text.Split` | server.py:154 | splitting always yields at least one field |
| `Text.SplitField` | server.py:154 | a field without the separator, followed by the separator, is split off as the first field |
| `Text.SplitNoSeparator` | server.py:154 | a string without the separator is a single field |
| `Text.SplitJoin` | bot.py:113 | splitting a join of separator-free parts gives the parts back |
| `Text.SplitOnce` | server.py:154 | splitting at the first `c`: `None` iff there is no `c`; otherwise the string is head, `c`, tail, and the head has no `c` |
| `Text.SplitOnceAt` | server.py:154 | a head without `c`, then `c`, then a tail, splits into exactly that head and tail |
| `Base64.Encode` | server.py:135 | `b64encode` output is 4 characters per started 3 bytes, all from the alphabet or `=` |
| `Base64.DecodeEncode` | server.py:157 | `b64decode(b64encode(bs)) == bs` (also server.py:135) |
| `Base64.Decode` | server.py:157 | `b64decode`: `None` when a character is outside ASCII, otherwise the non-strict decoder's verdict (no contract; see `DecodeEncode`, `A2bOneLeftOver`) |
| `Base64.EncodeConcat` | server.py:135 | encoding whole blocks followed by more bytes is encoding each part |
| `Base64.EncodeWholeBlocks` | server.py:135 | whole blocks encode to alphabet characters only, and to no `+` when none of their 6-bit values is 62 |
| `Base64.A2bOneLeftOver` | server.py:157 | text without `=` that leaves one data character in its last quad, followed by `==`, does not decode |
| `Base64.A2bOutputBound` | server.py:157 | the decoder cannot produce more bytes than the alphabet characters it reads complete |
| `Base64.EncodeDataTight` | server.py:135 | every alphabet character of an encoding is needed: one fewer completes fewer bytes than were encoded |
| `Base64.FewerDataCharsDecodeShort` | server.py:157 | text with fewer alphabet characters than the encoding of `bs` never decodes to `bs` |
| `Utf8.Encode` | server.py:135 | `str.encode()`: each character's UTF-8 bytes, in order (no contract; see `EncodeAscii`, `EncodeAppend`) |
| `Utf8.Decode` | server.py:157 | strict `bytes.decode()`: `None` on a malformed sequence (no contract; see `DecodeEncode`) |
| `Utf8.DecodeEncode` | server.py:157 | `bytes.decode(str.encode(s)) == s` (also server.py:135) |
| `Utf8.EncodeAscii` | server.py:135 | ASCII text encodes to its own code points, one byte each |
| `Utf8.EncodeAppend` | server.py:135 | encoding a concatenation is concatenating the encodings |
| `Json.DumpObject` | server.py:135 | `json.dumps` of a dict: `{}`, or the members joined by `, ` inside braces (no contract; see `ParseDump`, `DumpObjectAscii`) |
| `Json.ParseObject` | server.py:157 | `json.loads` of a flat object of strings, `None` for anything else (no contract; see `ParseDump`) |
| `Json.ParseDump` | server.py:157 | `json.loads(json.dumps(d)) == d` for a flat object of strings; a repeated key keeps its last value (also server.py:135) |
| `Json.DumpObjectAscii` | server.py:135 | `json.dumps` output is printable ASCII |
| `Json.EscapeStringPlain` | server.py:135 | printable ASCII without `"` or `\` is written unescaped |
| `Json.Quote` | server.py:135 | a JSON string starts with a quote |
| `CallLog.ElapsedSeconds` | bot.py:107-109 | `int(now - start)` truncates toward zero: `d <= elapsed < d + 1` when `now >= start`, mirrored below zero (also livekit_agent.py:185) |
| `Bot.TranscriptOf` | bot.py:111-113 | the parts joined with newlines (no contract; see `TranscriptLines`, `TranscriptAppend`) |
| `Bot.CallTracker.Transcript` | bot.py:111-113 | the `transcript` property: `TranscriptOf` of the tracker's parts (no contract; see `AddUserMessage`, `Save`) |
| `Bot.CallTracker.Duration` | bot.py:107-109 | the `duration` property: `int(now - start)` (no contract; see `CallLog.ElapsedSeconds`, `Save`) |
| `Bot.TranscriptLines` | bot.py:111-113 | splitting the transcript at newlines gives back the lines, when none contains a newline |
| `Bot.TranscriptAppend` | bot.py:111-116 | one more line extends the transcript by a newline and the line, or is the whole transcript for an empty tracker |
| `Bot.CallTracker.constructor` | bot.py:100-105 | a new tracker has the caller, no lines, intent `"unknown"`, no STT errors, and the given start time |
| `Bot.CallTracker.AddUserMessage` | bot.py:115-116 | appends exactly `"Caller: " + text`; earlier lines, intent, caller, start and error count are unchanged |
| `Bot.CallTracker.AddAssistantMessage` | bot.py:118-119 | appends exactly `"Receptionist: " + text` and changes nothing else |
| `Bot.CallTracker.SetIntent` | bot.py:121-122 | the intent becomes the argument; every other field is unchanged |
| `Bot.CallTracker.Save` | bot.py:107-113 | the logged record carries the caller, the newline-joined transcript, the intent and the truncated duration, which is non-negative once `now >= start` (also bot.py:125-126) |
| `Bot.SetIntentTwice` | bot.py:121-122 | setting the intent twice leaves the second value and leaves the transcript unchanged |
| `Bot.ToolNamed` | bot.py:172-175 | a registered name resolves to the tool registered under it; an unregistered name resolves to none |
| `Bot.ToolsDistinct` | bot.py:148-175 | each tool's name resolves back to it; its label is neither empty nor `"unknown"`; different tools have different labels |
| `Bot.HandleTool` | bot.py:148-170 | each handler sets its fixed label (`hours_inquiry`, `location_inquiry`, `sales_transfer`, `support_transfer`), returns its fixed result and leaves the transcript unchanged |
| `Bot.OnTranscript` | bot.py:233-237 | appends `"Caller: " + strip(text)` iff the stripped text is non-empty; otherwise the tracker is unchanged |
| `Bot.CallerNumber` | bot.py:250-251 | `(body or {}).get("from", "unknown")` (no contract; see `Server.MetadataDictCaller`, `TildeCaller.TildeCallerIsUnknown`) |
| `Bot.HoursInquiryCall` | bot.py:100-126 | a call with two spoken lines and an hours question lasting at least a second is logged with the caller, `hours_inquiry`, both lines and a positive duration (also bot.py:148-153 and bot.py:233-237) |
| `LiveKitAgent.FirstHit` | livekit_agent.py:104-107 | the index found is a keyword in the question with no earlier keyword in it; none is found iff no keyword occurs |
| `LiveKitAgent.FaqAnswer` | livekit_agent.py:104-113 | the answer of the first keyword found in the lowercased question, or the fallback (no contract; see `FaqFirstHitWins`, `FaqFallbackIffNoKeyword`) |
| `LiveKitAgent.FaqFirstHitWins` | livekit_agent.py:84-107 | the answer is entry `k`'s iff keyword `k` occurs in the lowercased question and no earlier keyword does |
| `LiveKitAgent.FaqFallbackIffNoKeyword` | livekit_agent.py:104-113 | the fallback text is returned iff no keyword occurs in the lowercased question |
| `LiveKitAgent.FaqAnswersDistinct` | livekit_agent.py:84-102 | the four answers differ from one another |
| `LiveKitAgent.FaqFallbackDistinct` | livekit_agent.py:84-113 | no answer equals the fallback |
| `LiveKitAgent.SupportBeforeRefund` | livekit_agent.py:94-107 | a question naming both "support" and "refund" and neither earlier keyword gets the support answer |
| `LiveKitAgent.FaqIgnoresCase` | livekit_agent.py:104 | lowering the question first does not change the answer |
| `LiveKitAgent.GetFaqAnswer` | livekit_agent.py:76-113 | the loop with early return gives the first-match answer |
| `LiveKitAgent.DepartmentReply` | livekit_agent.py:144-158 | the sales reply, the support reply, or the forwarding text naming the department (no contract; see `DepartmentRoutingIgnoresCase`, `OtherDepartmentNamed`) |
| `LiveKitAgent.DepartmentRoutingIgnoresCase` | livekit_agent.py:144-153 | departments equal up to case get the same sales or support reply |
| `LiveKitAgent.OtherDepartmentNamed` | livekit_agent.py:154-158 | any other department is named verbatim in the reply, right after the fixed prefix |
| `LiveKitAgent.CloseTranscript` | livekit_agent.py:186 | the entries joined with space-bar-space, or `"No transcript"` (no contract; see `CloseTranscriptShape`) |
| `LiveKitAgent.CloseTranscriptShape` | livekit_agent.py:186 | one more part extends the close-time transcript by the space-bar-space separator and the part, or is the whole transcript instead of `"No transcript"` |
| `LiveKitAgent.LastSipIdentity` | livekit_agent.py:166-169 | `"browser-user"` when no participant is SIP; otherwise the identity of a SIP participant with no SIP participant after it |
| `LiveKitAgent.LastSipIdentityStep` | livekit_agent.py:167-169 | a non-SIP participant never changes the selection; a SIP participant replaces it |
| `LiveKitAgent.SelectCallerNumber` | livekit_agent.py:166-169 | the loop selects the last SIP identity |
| `LiveKitAgent.Receptionist.constructor` | livekit_agent.py:49-54 | a new agent has no parts, intent `"unknown"`, caller `"unknown"` and the given start time |
| `LiveKitAgent.Receptionist.LogCallerIntent` | livekit_agent.py:116-128 | sets the intent, appends exactly `"[Intent: i] s"`, returns the fixed acknowledgement and changes nothing else |
| `LiveKitAgent.Receptionist.TransferToDepartment` | livekit_agent.py:131-158 | always appends `"[Transfer: d] n - r"`, keeps the intent, and returns the case-insensitive department reply |
| `LiveKitAgent.Receptionist.OnSessionClose` | livekit_agent.py:184-192 | the record carries the caller, the intent, the parts joined by space-bar-space, or `"No transcript"` (never empty) and the truncated duration |
| `LiveKitAgent.Entrypoint` | livekit_agent.py:163-173 | the new agent's caller is the last SIP identity, and its other state is as constructed |
| `Server.MergedParams` | server.py:112-115 | the keys are the query's, plus the form's on POST; a form value wins on a key collision |
| `Server.MetadataOf` | server.py:117-119 | each of `CallUUID`, `From`, `To` is its parameter when present; a field is `"unknown"` iff it is absent or given as `"unknown"` |
| `Server.WsBase` | server.py:124-132 | the base is always a `ws://` or `wss://` URL; with a Railway domain set, the domain follows `wss://`; otherwise the base ends in the request's host, defaulting to `localhost:8000` |
| `Server.WsBaseSecure` | server.py:124-132 | the base is `wss://` iff the domain is set or the request scheme is `https` |
| `Server.WsBaseDomainOverrides` | server.py:126-129 | with a domain set, the request's scheme and host make no difference to the base |
| `Server.EncodeBody` | server.py:134-135 | the body parameter consists only of base64 alphabet characters and `=` |
| `Server.Answer` | server.py:110-147 | the stream endpoint is the websocket base, then `/ws?body=`, then the base64 of the JSON of `from`, `to`, `call_uuid`, all inside the fixed XML |
| `Server.PlusToSpace` | server.py:154 | form decoding of a query value turns each `+` into a space and keeps every other character |
| `Server.PercentDecodePlain` | server.py:154 | a value without `%` is left as it is by unquoting |
| `Server.StreamTargetParams` | server.py:154 | the websocket's query parameters for the stream URL are exactly `body`, holding the base64 text with `+` turned into spaces (also server.py:136) |
| `Server.DecodeEncodeBody` | server.py:157 | decoding the encoded body gives back the three-field metadata (also server.py:134-135) |
| `Server.SpaceToPlus` | server.py:154-157 | the corrected decoding turns each space back into `+` and keeps every other character |
| `Server.SpaceToPlusRestores` | server.py:154-157 | on text without spaces, `+` turned into spaces and back is the original text |
| `Server.AsWrittenLosesPlus` | server.py:154-157 | when the body's base64 contains `+`, decoding the parameter the websocket receives does not give back the JSON bytes (also server.py:136) |
| `Server.TildeCallerEncodesPlus` | server.py:117-135 | a caller whose second character is `~`, after a plain ASCII first character, puts a `+` in the body |
| `Server.PlusToSpaceLosesData` | server.py:154-157 | turning `+` into spaces never adds alphabet characters, and loses one for each `+` |
| `Server.QueryParams` | server.py:154 | the websocket's query parameters: the text after the first `?`, split at `&` and `=`, form-decoded, the last value of a repeated name kept (no contract; see `StreamTargetParams`) |
| `Server.DecodeBody` | server.py:157 | `json.loads(b64decode(b).decode())`, `None` when any step fails (no contract; see `DecodeEncodeBody`) |
| `Server.WebSocketBodyAsWritten` | server.py:151-160 | the body as written: decoded from the `body` parameter as received, `None` when absent or undecodable (no contract; see `TildeCaller.TildeCallerIsUnknown`) |
| `Server.WebSocketBody` | server.py:151-160 | the corrected body: `+` restored before decoding (no contract; see `MetadataReachesBot`) |
| `Server.PlusToSpaceAppend` | server.py:154 | form decoding works character by character, so it distributes over concatenation |
| `Server.MetadataReachesBot` | server.py:153-169 | with the correction, the websocket decodes exactly the metadata `answer` encoded, and the bot's caller number is the `From` parameter (also server.py:117-136 and bot.py:249-251) |
| `Server.MetadataDictCaller` | bot.py:249-251 | the bot reads the caller from the decoded body's `from` |
| `Server.DecideCall` | server.py:77-92 | 400 iff `to` is missing or empty, checked first; 500 iff `to` is set and a credential is missing; otherwise the call goes from the configured number to `to` |
| `Server.CallAnswerUrl` | server.py:92 | `https://` + domain + `/answer` when the domain is set, else the localhost URL (no contract; see `CallAnswerUrlShape`) |
| `Server.CallAnswerUrlShape` | server.py:92 | the answer URL always ends in `/answer`; it starts with `https://` iff a domain is set, with exactly the domain between the two; otherwise it is `/answer` on `http://localhost:8000` |
| `TildeCaller.CallBodyUndecodable` | server.py:157 | for the call from `a~`, the `body` parameter the websocket receives is not valid base64 (also server.py:136 and server.py:154) |
| `TildeCaller.TildeCallerIsUnknown` | server.py:151-160 | for the call from `a~`, the websocket as written gets no body and the bot's caller number is `"unknown"`; with the correction it is `a~` (also bot.py:250-251) |
| `TildeCaller.TildeCallerFailsCallerCheck` | verify_db.py:93 | the logged row of the `a~` call fails `has_caller` as written and passes it with the correction |
| `VerifyDb.HasCaller` | verify_db.py:93 | `has_caller`: a caller that is neither NULL, empty nor `"unknown"` (no contract; see `BodyCallerCheck`, `TildeCaller.TildeCallerFailsCallerCheck`) |
| `VerifyDb.HasTranscript` | verify_db.py:94 | `has_transcript`: a transcript that is neither NULL nor empty (no contract; see `SilentPipecatCall`, `SilentLiveKitCall`) |
| `VerifyDb.HasIntent` | verify_db.py:95 | `has_intent`: an intent that is neither NULL, empty nor `"unknown"` (no contract; see `ToolIntentPasses`) |
| `VerifyDb.HasDuration` | verify_db.py:96 | `has_duration`: a duration that is not NULL and is positive (no contract; see `DurationPassesIffFullSecond`) |
| `VerifyDb.BodyCallerCheck` | verify_db.py:93 | a Pipecat call's logged caller passes `has_caller` iff the decoded body holds a `from` that is neither empty nor `"unknown"`; an undecodable body always fails |
| `VerifyDb.AllValid` | verify_db.py:89-110 | the flag ends true iff every row passes all four checks, so one failing row clears it for good |
| `VerifyDb.ScanRowsAsWritten` | verify_db.py:89-110 | the loop as written aborts iff some row has a NULL transcript; otherwise its verdict is that of `AllValid` (also verify_db.py:120-122) |
| `VerifyDb.NullTranscriptAborts` | verify_db.py:102 | a complete row except for a NULL transcript aborts the scan, though the checks would report the table incomplete (also verify_db.py:94) |
| `VerifyDb.SilentPipecatCall` | verify_db.py:94-95 | a tracker that recorded no speech and ran no tool is logged with a row that fails `has_transcript` and `has_intent` (also bot.py:100-113 and bot.py:125-126) |
| `VerifyDb.SilentLiveKitCall` | verify_db.py:94-95 | a LiveKit call with nothing recorded passes `has_transcript` (it logs `"No transcript"`) and fails `has_intent` (also livekit_agent.py:184-192) |
| `VerifyDb.ToolIntentPasses` | verify_db.py:95 | a record whose intent was set by any tool handler passes `has_intent` (also bot.py:148-170) |
| `VerifyDb.DurationPassesIffFullSecond` | verify_db.py:96 | a logged duration passes `has_duration` iff the call lasted at least one full second (also bot.py:107-109) |
| `VerifyPlivo.FieldValue` | verify_plivo.py:47-48 | `getattr(num, name, num.get(name, default))`: `None` iff the field is present as `None`; the default iff the field is absent or holds the default; any other string comes from a field holding it |
| `VerifyPlivo.FieldValueCollapses` | verify_plivo.py:47-48 | two fields read alike iff they are equal, or one is absent and the other holds the default |
| `VerifyPlivo.NumberOf` | verify_plivo.py:47 | the number is `None` iff the entry holds `None`; `"?"` when the entry has none; the string otherwise |
| `VerifyPlivo.AnswerUrlOf` | verify_plivo.py:48 | the answer URL is `None` iff the entry holds `None`; `"Not set"` when the entry has none; the string otherwise |
| `VerifyPlivo.Str` | verify_plivo.py:50-51 | `str()` gives `"None"` iff the value is `None` or the string `"None"`; any other text is the string itself |
| `VerifyPlivo.StrCollapses` | verify_plivo.py:50-51 | two values are written alike iff they are equal, or one is `None` and the other the string `"None"` |
| `VerifyPlivo.IsRailway` | verify_plivo.py:50 | `is_railway`: `railway` in the lowercased URL, or the Railway domain suffix in the URL (no contract; see `RailwaySuffixRedundant`) |
| `VerifyPlivo.IsNgrok` | verify_plivo.py:51 | `is_ngrok`: `ngrok` in the lowercased URL (no contract; see `Status`) |
| `VerifyPlivo.Status` | verify_plivo.py:50-53 | `RAILWAY` iff `is_railway`; `NGROK (update needed!)` iff `is_ngrok` and not `is_railway`; `OTHER` iff neither |
| `VerifyPlivo.EntryStatus` | verify_plivo.py:48-53 | an entry is `RAILWAY` iff `str` of its answer URL is a Railway URL, and `OTHER` iff it names neither Railway nor ngrok |
| `VerifyPlivo.Marker` | verify_plivo.py:54 | `">>>"` iff the number equals the configured number under Python `==`, where `None == None`; three spaces otherwise (also verify_plivo.py:28) |
| `VerifyPlivo.RailwaySuffixRedundant` | verify_plivo.py:50 | `is_railway` holds iff the lowercased URL contains `railway`: the domain-suffix disjunct adds no case |
| `VerifyPlivo.RailwayOverNgrok` | verify_plivo.py:50-53 | a URL naming both Railway and ngrok is `RAILWAY` |
| `VerifyPlivo.NotSetIsOther` | verify_plivo.py:48-53 | `"Not set"` names neither Railway nor ngrok, so it is `OTHER` |
| `VerifyPlivo.NoneIsOther` | verify_plivo.py:50-53 | `"None"`, the text of a `None` answer URL, is `OTHER` |
| `VerifyPlivo.UnsetUrlIsOther` | verify_plivo.py:48-53 | an entry whose answer URL is absent or `None` is `OTHER` |
| `VerifyPlivo.UnconfiguredMarksNullNumber` | verify_plivo.py:54 | with `PLIVO_PHONE_NUMBER` unset, an entry is marked iff its number is present but `None` (also verify_plivo.py:28) |
| `VerifyPlivo.ConfiguredMarksItsNumber` | verify_plivo.py:54 | with a configured number, an entry is marked iff it holds that number, or has no number while the configured one is `"?"` (also verify_plivo.py:47) |

## Left out

- The Pipecat and LiveKit pipelines and their services (VAD, STT, LLM, TTS, runners, sessions, `task.cancel()`, frame queues). These are libraries outside this repository, so turn-taking and tool dispatch are not modelled. A tool call is modelled as a direct call of its handler.
- `on_client_disconnected` saves on every disconnect (bot.py:226-229). Each save is modelled; no once-only save is claimed.
- The LiveKit tools `get_business_hours` and `get_office_location` (livekit_agent.py:57-73). They return fixed text and touch no state.
- db.py is not part of this model beyond the record it receives. `log_call`'s SQL becomes `CallLog.CallRecord`, and `RowOf` in `VerifyDb` stands for the row it stores.
- Wall-clock time. `time.time()` becomes a `real` parameter.
- The Plivo REST call, websocket accept and close, the `/logs` endpoint, uvicorn startup, the database connection and queries of the scripts, the Plivo number listing call, and all logging and printing.
- The request body of `/call` is taken as already parsed. A body that is not JSON, and a `to` that is not a string, are not modelled.
- The streaming client is assumed to request the URL it was given unchanged, so the websocket's query string is the text after the first `?` of the stream endpoint.
- `Server.PercentDecode` decodes only `%XX` escapes of ASCII characters. Non-ASCII escapes, which would need UTF-8 decoding, are left as they are. No value produced by this model contains `%`.
- `Json` parses only objects whose values are all strings; any other JSON text decodes to `None`. `Utf8.Decode` is proved only as the inverse of `Utf8.Encode`.
- `Text.Lower` lowers ASCII letters only; Unicode case mapping is not modelled.
- The iteration order of `remote_participants` is taken to be the order of the sequence given to `SelectCallerNumber`.
- `VerifyDb`: the script inspects two tables in turn; the model folds over one table's rows.
- Deployment scripts (verify_deployment.py, verify_railway_setup.py, update_plivo.py). They drive HTTP, subprocesses and the Plivo API.

## Findings

| source | as written | input that shows it | evidently intended | confidence | as-written member | corrected member |
|---|---|---|---|---|---|---|
| server.py:136, server.py:154-157 | the base64 body is placed in the stream URL without URL-quoting. The websocket reads it back through form decoding of the query string, which turns every `+` into a space. `b64decode` then skips the spaces, so the decoded bytes are not the JSON that was encoded. For the input shown, decoding fails altogether, `body` stays `None`, and the bot logs the caller as `"unknown"`. | an `/answer` request with `From=a~`: the JSON byte at offset 11 is `~`, which makes base64 character 15 a `+`; 73 data characters remain, one past a whole number of quads, so `b64decode` fails | the websocket gets back the metadata `answer` encoded, and the bot logs the real caller number instead of `"unknown"` | not executed | `TildeCaller.TildeCallerIsUnknown` (with `Server.AsWrittenLosesPlus` and `Server.TildeCallerEncodesPlus`) | `Server.MetadataReachesBot` (decodes after `Server.SpaceToPlus`) |
| verify_db.py:102 | the transcript is sliced with `transcript[:100]` before its NULL check. The `transcript` column allows NULL (db.py:34), so a NULL raises inside the loop, and the script stops with "Error querying database" | a row whose `transcript` is NULL | the row is reported and counted as incomplete, as the guard on the same line and `has_transcript` already handle `None` | not executed | `VerifyDb.ScanRowsAsWritten` (with `VerifyDb.NullTranscriptAborts`) | `VerifyDb.AllValid` |
