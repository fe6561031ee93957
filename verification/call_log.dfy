/**
 * The call record both receptionists hand to `log_call` when a call ends, and
 * the whole-second duration they compute for it.
 */
module CallLog {

  /** The four values `log_call(caller_number, transcript, detected_intent, duration)` receives. */
  datatype CallRecord = CallRecord(callerNumber: string, transcript: string, detectedIntent: string, duration: int)

  /**
   * `int(now - start)` on clock readings in seconds: Python's `int()` of a float
   * truncates toward zero, so the result is the whole seconds elapsed, never
   * negative when the clock did not go backwards.
   */
  function ElapsedSeconds(start: real, now: real): (d: int)
    ensures now >= start ==> 0 <= d && d as real <= now - start < d as real + 1.0
    ensures now < start ==> d <= 0 && d as real - 1.0 < now - start <= d as real
  {
    var x := now - start;
    if x >= 0.0 then x.Floor else -((-x).Floor)
  }
}
