/**
 * The completeness checks the database verification script applies to each
 * recent call log row, and its fold of those checks over the rows of a table.
 */
module VerifyDb {
  import opened Options
  import opened CallLog
  import Bot
  import LiveKitAgent

  /** One row as the query returns it; a NULL column is None. */
  datatype CallRow = CallRow(
    logId: int,
    caller: Option<string>,
    transcript: Option<string>,
    intent: Option<string>,
    duration: Option<int>)

  /** The row `log_call` stores for a record: every column filled in. */
  function RowOf(logId: int, record: CallRecord): CallRow {
    CallRow(logId, Some(record.callerNumber), Some(record.transcript), Some(record.detectedIntent), Some(record.duration))
  }

  /** `has_caller`: a caller number that is neither empty nor "unknown". */
  predicate HasCaller(row: CallRow) {
    row.caller.Some? && row.caller.value != "" && row.caller.value != "unknown"
  }

  /** `has_transcript`: a transcript that is not empty. */
  predicate HasTranscript(row: CallRow) {
    row.transcript.Some? && |row.transcript.value| > 0
  }

  /** `has_intent`: an intent that is neither empty nor "unknown". */
  predicate HasIntent(row: CallRow) {
    row.intent.Some? && row.intent.value != "" && row.intent.value != "unknown"
  }

  /** `has_duration`: a duration that is present and positive. */
  predicate HasDuration(row: CallRow) {
    row.duration.Some? && row.duration.value > 0
  }

  /** All four checks pass. */
  predicate RowComplete(row: CallRow) {
    HasCaller(row) && HasTranscript(row) && HasIntent(row) && HasDuration(row)
  }

  /**
   * The fold of the checks over a table's rows: the flag starts true and is
   * cleared by the first incomplete row, after which nothing sets it again.
   */
  method AllValid(rows: seq<CallRow>) returns (allValid: bool)
    ensures allValid <==> forall k :: 0 <= k < |rows| ==> RowComplete(rows[k])
  {
    allValid := true;
    for i := 0 to |rows|
      invariant allValid <==> forall k :: 0 <= k < i ==> RowComplete(rows[k])
    {
      if !RowComplete(rows[i]) {
        allValid := false;
      }
    }
  }

  /** How the scan of a table ends: with its verdict, or aborted by an error. */
  datatype ScanOutcome = Verdict(allValid: bool) | Aborted

  /**
   * The loop as written: each row is printed before its checks are folded in,
   * and printing the first 100 characters of a NULL transcript raises, which
   * ends the whole verification with an error.
   */
  method ScanRowsAsWritten(rows: seq<CallRow>) returns (outcome: ScanOutcome)
    ensures outcome.Aborted? <==> exists k :: 0 <= k < |rows| && rows[k].transcript.None?
    ensures outcome.Verdict? ==> (outcome.allValid <==> forall k :: 0 <= k < |rows| ==> RowComplete(rows[k]))
  {
    var allValid := true;
    for i := 0 to |rows|
      invariant forall k :: 0 <= k < i ==> rows[k].transcript.Some?
      invariant allValid <==> forall k :: 0 <= k < i ==> RowComplete(rows[k])
    {
      var row := rows[i];
      if row.transcript.None? {
        return Aborted;
      }
      if !RowComplete(row) {
        allValid := false;
      }
    }
    return Verdict(allValid);
  }

  /** A row with a NULL transcript stops the scan instead of being reported as incomplete. */
  method NullTranscriptAborts() returns (asWritten: ScanOutcome, intended: bool)
    ensures asWritten == Aborted
    ensures intended == false
  {
    var row := CallRow(1, Some("+14155550100"), None, Some("hours_inquiry"), Some(42));
    assert [row][0].transcript.None?;
    asWritten := ScanRowsAsWritten([row]);
    intended := AllValid([row]);
  }

  /**
   * A Pipecat call in which nothing was said and no tool ran is logged with an
   * empty transcript and intent "unknown", so it fails both of those checks.
   */
  method SilentPipecatCall(caller: string, start: real, end: real) returns (row: CallRow)
    ensures !HasTranscript(row) && !HasIntent(row)
  {
    var tracker := new Bot.CallTracker(caller, start);
    var record := tracker.Save(end);
    row := RowOf(1, record);
  }

  /**
   * The caller a Pipecat call logs passes `has_caller` exactly when the decoded
   * websocket body carried a `from` that is neither empty nor "unknown"; a body
   * that did not decode always fails the check.
   */
  lemma BodyCallerCheck(body: Option<map<string, string>>, logId: int, record: CallRecord)
    requires record.callerNumber == Bot.CallerNumber(body)
    ensures HasCaller(RowOf(logId, record)) <==>
      body.Some? && "from" in body.value && body.value["from"] != "" && body.value["from"] != "unknown"
    ensures body == None ==> !HasCaller(RowOf(logId, record))
  {
  }

  /**
   * A LiveKit call in which nothing was recorded is logged with the text
   * "No transcript", which passes the transcript check; its intent still fails.
   */
  method SilentLiveKitCall(start: real, end: real) returns (row: CallRow)
    ensures HasTranscript(row) && !HasIntent(row)
  {
    var agent := new LiveKitAgent.Receptionist(start);
    var record := agent.OnSessionClose(end);
    row := RowOf(1, record);
  }

  /** Any of the Pipecat tool handlers records an intent that passes the intent check. */
  lemma ToolIntentPasses(tool: Bot.Tool, logId: int, record: CallRecord)
    requires record.detectedIntent == Bot.IntentLabel(tool)
    ensures HasIntent(RowOf(logId, record))
  {
    Bot.ToolsDistinct(tool, tool);
  }

  /**
   * The duration check passes exactly when the call lasted a full second:
   * truncation turns anything shorter into 0.
   */
  lemma DurationPassesIffFullSecond(logId: int, record: CallRecord, start: real, end: real)
    requires record.duration == ElapsedSeconds(start, end)
    ensures HasDuration(RowOf(logId, record)) <==> end - start >= 1.0
  {
  }
}
