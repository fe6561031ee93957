/**
 * The Pipecat receptionist's own state: the call tracker, the four tool
 * handlers that set an intent, the transcript filter on recognised speech,
 * and the caller number taken from the call metadata.
 */
module Bot {
  import opened Options
  import opened Text
  import opened CallLog

  const CallerPrefix := "Caller: "
  const ReceptionistPrefix := "Receptionist: "

  /** The transcript text of a list of lines: one line per entry, joined with "\n". */
  function TranscriptOf(parts: seq<string>): string {
    Join(parts, "\n")
  }

  /**
   * The transcript has one line per recorded entry: splitting it at "\n" gives
   * the entries back, so n entries are separated by exactly n - 1 newlines.
   */
  lemma TranscriptLines(parts: seq<string>)
    requires parts != []
    requires forall k :: 0 <= k < |parts| ==> '\n' !in parts[k]
    ensures Split(TranscriptOf(parts), '\n') == parts
  {
    SplitJoin(parts, '\n');
  }

  /** Recording one more entry adds one line at the end of the transcript text. */
  lemma TranscriptAppend(parts: seq<string>, line: string)
    ensures TranscriptOf(parts + [line]) == if parts == [] then line else TranscriptOf(parts) + "\n" + line
  {
    JoinAppend(parts, line, "\n");
  }

  /** The state one Pipecat call accumulates until it is written to the call log. */
  class CallTracker {
    var callerNumber: string
    var transcriptParts: seq<string>
    var detectedIntent: string
    var startTime: real
    var sttErrorCount: int

    /** A new call: nothing said yet, intent "unknown", started at `now`. */
    constructor (callerNumber: string, now: real)
      ensures this.callerNumber == callerNumber && transcriptParts == [] && detectedIntent == "unknown"
      ensures startTime == now && sttErrorCount == 0
    {
      this.callerNumber := callerNumber;
      transcriptParts := [];
      detectedIntent := "unknown";
      startTime := now;
      sttErrorCount := 0;
    }

    /** Whole seconds since the call started. */
    function Duration(now: real): int
      reads this
    {
      ElapsedSeconds(startTime, now)
    }

    function Transcript(): string
      reads this
    {
      TranscriptOf(transcriptParts)
    }

    /** Records what the caller said, as a new last line. */
    method AddUserMessage(text: string)
      modifies this
      ensures transcriptParts == old(transcriptParts) + [CallerPrefix + text]
      ensures Transcript() == if old(transcriptParts) == [] then CallerPrefix + text
                              else old(Transcript()) + "\n" + CallerPrefix + text
      ensures callerNumber == old(callerNumber) && detectedIntent == old(detectedIntent)
      ensures startTime == old(startTime) && sttErrorCount == old(sttErrorCount)
    {
      TranscriptAppend(transcriptParts, CallerPrefix + text);
      transcriptParts := transcriptParts + [CallerPrefix + text];
    }

    /** Records what the receptionist said, as a new last line. */
    method AddAssistantMessage(text: string)
      modifies this
      ensures transcriptParts == old(transcriptParts) + [ReceptionistPrefix + text]
      ensures Transcript() == if old(transcriptParts) == [] then ReceptionistPrefix + text
                              else old(Transcript()) + "\n" + ReceptionistPrefix + text
      ensures callerNumber == old(callerNumber) && detectedIntent == old(detectedIntent)
      ensures startTime == old(startTime) && sttErrorCount == old(sttErrorCount)
    {
      TranscriptAppend(transcriptParts, ReceptionistPrefix + text);
      transcriptParts := transcriptParts + [ReceptionistPrefix + text];
    }

    /** The intent is a single value: the last one set wins, and nothing else changes. */
    method SetIntent(intent: string)
      modifies this
      ensures detectedIntent == intent
      ensures transcriptParts == old(transcriptParts) && callerNumber == old(callerNumber)
      ensures startTime == old(startTime) && sttErrorCount == old(sttErrorCount)
    {
      detectedIntent := intent;
    }

    /** What `save()` hands to `log_call`: the tracker's values, unchanged, with the duration at `now`. */
    method Save(now: real) returns (record: CallRecord)
      ensures record.callerNumber == callerNumber && record.detectedIntent == detectedIntent
      ensures record.transcript == TranscriptOf(transcriptParts)
      ensures record.duration == ElapsedSeconds(startTime, now)
      ensures now >= startTime ==> record.duration >= 0
    {
      record := CallRecord(callerNumber, Transcript(), detectedIntent, Duration(now));
    }
  }

  /** Setting two intents in a row keeps only the second. */
  method SetIntentTwice(tracker: CallTracker, first: string, second: string)
    modifies tracker
    ensures tracker.detectedIntent == second
    ensures tracker.transcriptParts == old(tracker.transcriptParts)
  {
    tracker.SetIntent(first);
    tracker.SetIntent(second);
  }

  /** The four functions the language model may call. */
  datatype Tool = GetBusinessHours | GetLocation | TransferToSales | TransferToSupport

  /** The name each handler is registered under. */
  function ToolName(tool: Tool): string {
    match tool
    case GetBusinessHours => "get_business_hours"
    case GetLocation => "get_location"
    case TransferToSales => "transfer_to_sales"
    case TransferToSupport => "transfer_to_support"
  }

  /** The handler registered for a function name, if any. */
  function ToolNamed(name: string): (tool: Option<Tool>)
    ensures tool.Some? ==> ToolName(tool.value) == name
    ensures tool.None? ==> forall t: Tool :: ToolName(t) != name
  {
    if name == "get_business_hours" then Some(GetBusinessHours)
    else if name == "get_location" then Some(GetLocation)
    else if name == "transfer_to_sales" then Some(TransferToSales)
    else if name == "transfer_to_support" then Some(TransferToSupport)
    else None
  }

  /** The intent label each handler records. */
  function IntentLabel(tool: Tool): string {
    match tool
    case GetBusinessHours => "hours_inquiry"
    case GetLocation => "location_inquiry"
    case TransferToSales => "sales_transfer"
    case TransferToSupport => "support_transfer"
  }

  /** The text each handler gives back to the language model. */
  function ToolResult(tool: Tool): string {
    match tool
    case GetBusinessHours =>
      "Acme Corp is open Monday to Friday, 9 AM to 5 PM Pacific time. "
      + "We are closed on weekends and major holidays."
    case GetLocation =>
      "Acme Corp is located at 123 Main Street, San Francisco, California. "
      + "We have free visitor parking available."
    case TransferToSales => "Connecting to the sales team now."
    case TransferToSupport => "Connecting to the support team now."
  }

  /**
   * Each handler is found under its own name, and the labels tell the handlers
   * apart: none is empty or "unknown", and no two handlers share one.
   */
  lemma ToolsDistinct(t1: Tool, t2: Tool)
    ensures ToolNamed(ToolName(t1)) == Some(t1)
    ensures IntentLabel(t1) != "" && IntentLabel(t1) != "unknown"
    ensures t1 != t2 ==> IntentLabel(t1) != IntentLabel(t2)
  {
  }

  /** A handler call: sets the handler's fixed intent label and answers with its fixed text. */
  method HandleTool(tracker: CallTracker, tool: Tool) returns (result: string)
    modifies tracker
    ensures tracker.detectedIntent == IntentLabel(tool)
    ensures tracker.transcriptParts == old(tracker.transcriptParts) && tracker.callerNumber == old(tracker.callerNumber)
    ensures tracker.startTime == old(tracker.startTime) && tracker.sttErrorCount == old(tracker.sttErrorCount)
    ensures result == ToolResult(tool)
  {
    tracker.SetIntent(IntentLabel(tool));
    result := ToolResult(tool);
  }

  /**
   * The speech-recogniser filter: a frame without text, or whose text is blank
   * once stripped, records nothing; otherwise the stripped text becomes a caller line.
   */
  method OnTranscript(tracker: CallTracker, frameText: Option<string>)
    modifies tracker
    ensures var text := Strip(frameText.GetOr(""));
      tracker.transcriptParts == old(tracker.transcriptParts) + (if text == "" then [] else [CallerPrefix + text])
    ensures tracker.detectedIntent == old(tracker.detectedIntent) && tracker.callerNumber == old(tracker.callerNumber)
    ensures tracker.startTime == old(tracker.startTime) && tracker.sttErrorCount == old(tracker.sttErrorCount)
  {
    FrameText(frameText);
    if frameText.Some? && frameText.value != "" {
      var text := Strip(frameText.value);
      if text != "" {
        tracker.AddUserMessage(text);
      }
    }
  }

  /** A frame without text reads as blank; a frame with text reads as that text. */
  lemma FrameText(frameText: Option<string>)
    ensures frameText.Some? && frameText.value != "" ==> Strip(frameText.GetOr("")) == Strip(frameText.value)
    ensures !(frameText.Some? && frameText.value != "") ==> Strip(frameText.GetOr("")) == ""
  {
    if !(frameText.Some? && frameText.value != "") {
      assert frameText.GetOr("") == "";
    }
  }

  /** `(runner_args.body or {}).get("from", "unknown")`: the caller number for the tracker. */
  function CallerNumber(body: Option<map<string, string>>): string {
    if body.Some? && "from" in body.value then body.value["from"] else "unknown"
  }

  /**
   * A call in which the caller asks something, the model calls the hours tool,
   * and the caller says something more, logs the hours intent, both stripped
   * caller lines in the order spoken, and a positive duration when it lasted at
   * least a second.
   */
  method HoursInquiryCall(caller: string, question: string, goodbye: string, start: real, end: real)
    returns (record: CallRecord)
    requires Strip(question) != "" && Strip(goodbye) != ""
    requires end >= start + 1.0
    ensures record.callerNumber == caller
    ensures record.detectedIntent == IntentLabel(GetBusinessHours)
    ensures record.transcript == (CallerPrefix + Strip(question)) + "\n" + (CallerPrefix + Strip(goodbye))
    ensures record.duration >= 1
  {
    var first, second := CallerPrefix + Strip(question), CallerPrefix + Strip(goodbye);
    var tracker := new CallTracker(caller, start);
    OnTranscript(tracker, Some(question));
    assert tracker.transcriptParts == [first];
    var reply := HandleTool(tracker, GetBusinessHours);
    assert tracker.transcriptParts == [first];
    OnTranscript(tracker, Some(goodbye));
    assert tracker.transcriptParts == [first] + [second];
    assert tracker.detectedIntent == IntentLabel(GetBusinessHours);
    assert tracker.callerNumber == caller && tracker.startTime == start;
    TranscriptAppend([first], second);
    record := tracker.Save(end);
  }
}
