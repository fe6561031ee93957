/**
 * The LiveKit receptionist's own state and tools: the tracking fields of the
 * agent, the keyword FAQ lookup, intent logging, the simulated department
 * transfer, the transcript and duration logged when the session closes, and
 * the choice of caller number among the room's participants.
 */
module LiveKitAgent {
  import opened Options
  import opened Text
  import opened CallLog

  /** The FAQ table, as (keyword, answer) pairs in the order the lookup tries them. */
  const Faqs: seq<(string, string)> := [
    ("pricing",
     "Our pricing starts at 49 dollars per month for the Starter plan, "
     + "149 dollars per month for Professional, and 399 dollars per month for Enterprise. "
     + "We also offer custom pricing for large organizations."),
    ("trial",
     "Yes, we offer a free 14-day trial of our Professional plan. "
     + "No credit card required to start."),
    ("support",
     "We offer email support for all plans, priority phone support for Professional plans, "
     + "and dedicated account managers for Enterprise customers."),
    ("refund",
     "We offer a 30-day money-back guarantee on all annual plans. "
     + "Monthly plans can be cancelled at any time.")
  ]

  /** The answer when no keyword occurs in the question. */
  const FaqFallback :=
    "I don't have a specific FAQ answer for that question. "
    + "I can connect you with a team member who can help, "
    + "or you can email support at help@techcorp.com."

  /** Whether the keyword of entry `k` occurs in the (already lower-cased) question. */
  predicate Hits(q: string, k: int)
    requires 0 <= k < |Faqs|
  {
    Contains(q, Faqs[k].0)
  }

  /** The first entry, from `i` on, whose keyword occurs in `q`. */
  function FirstHit(q: string, i: nat): (r: Option<nat>)
    requires i <= |Faqs|
    ensures r.Some? ==> i <= r.value < |Faqs| && Hits(q, r.value)
    ensures r.Some? ==> forall j :: i <= j < r.value ==> !Hits(q, j)
    ensures r.None? <==> forall j :: i <= j < |Faqs| ==> !Hits(q, j)
    decreases |Faqs| - i
  {
    if i == |Faqs| then None
    else if Hits(q, i) then Some(i)
    else FirstHit(q, i + 1)
  }

  /** What `get_faq_answer` answers: the first entry whose keyword occurs in the lower-cased question. */
  function FaqAnswer(question: string): string {
    match FirstHit(Lower(question), 0)
    case Some(k) => Faqs[k].1
    case None => FaqFallback
  }

  /**
   * The lookup answers with entry `k` exactly when the keyword of `k` occurs in
   * the lower-cased question and no earlier keyword does: the first hit wins.
   */
  lemma FaqFirstHitWins(question: string, k: nat)
    requires k < |Faqs|
    ensures FaqAnswer(question) == Faqs[k].1
        <==> Hits(Lower(question), k) && forall j :: 0 <= j < k ==> !Hits(Lower(question), j)
  {
    var q := Lower(question);
    match FirstHit(q, 0)
    case Some(h) =>
      if h != k {
        FaqAnswersDistinct(h, k);
      }
    case None =>
      FaqFallbackDistinct(k);
  }

  /** The fallback comes back exactly when no keyword occurs in the lower-cased question. */
  lemma FaqFallbackIffNoKeyword(question: string)
    ensures FaqAnswer(question) == FaqFallback <==> forall j :: 0 <= j < |Faqs| ==> !Hits(Lower(question), j)
  {
    match FirstHit(Lower(question), 0)
    case Some(h) =>
      FaqFallbackDistinct(h);
      assert Hits(Lower(question), h);
    case None =>
  }

  /** The four answers and the fallback are five different texts. */
  lemma FaqAnswersDistinct(h: nat, k: nat)
    requires h < |Faqs| && k < |Faqs| && h != k
    ensures Faqs[h].1 != Faqs[k].1
  {
    assert |Faqs[0].1| == 200 && |Faqs[1].1| == 93 && |Faqs[2].1| == 141 && |Faqs[3].1| == 103;
  }

  lemma FaqFallbackDistinct(k: nat)
    requires k < |Faqs|
    ensures Faqs[k].1 != FaqFallback
  {
    assert |Faqs[0].1| == 200 && |Faqs[1].1| == 93 && |Faqs[2].1| == 141 && |Faqs[3].1| == 103;
    assert |FaqFallback| == 151;
  }

  /**
   * A question naming both support and refund (and neither pricing nor a trial)
   * gets the support answer, since "support" comes first in the table.
   */
  lemma SupportBeforeRefund(question: string)
    requires !Contains(Lower(question), "pricing") && !Contains(Lower(question), "trial")
    requires Contains(Lower(question), "support") && Contains(Lower(question), "refund")
    ensures FaqAnswer(question) == Faqs[2].1
  {
    FaqFirstHitWins(question, 2);
  }

  /** Matching ignores letter case: the question and its lower-cased form get the same answer. */
  lemma FaqIgnoresCase(question: string)
    ensures FaqAnswer(Lower(question)) == FaqAnswer(question)
  {
    LowerIdempotent(question);
  }

  /** `get_faq_answer`: tries the table entries in order and returns on the first hit. */
  method GetFaqAnswer(question: string) returns (answer: string)
    ensures answer == FaqAnswer(question)
  {
    var questionLower := Lower(question);
    for i := 0 to |Faqs|
      invariant FirstHit(questionLower, 0) == FirstHit(questionLower, i)
    {
      var (keyword, text) := Faqs[i];
      if Contains(questionLower, keyword) {
        return text;
      }
    }
    return FaqFallback;
  }

  /** The entry `log_caller_intent` records. */
  function IntentEntry(intent: string, summary: string): string {
    "[Intent: " + intent + "] " + summary
  }

  /** The entry `transfer_to_department` records. */
  function TransferEntry(department: string, callerName: string, reason: string): string {
    "[Transfer: " + department + "] " + callerName + " - " + reason
  }

  const SalesReply :=
    "I've noted your interest and a sales representative will follow up with you "
    + "within the next business day. Is there anything else I can help with?"
  const SupportReply :=
    "I've logged your support request and a technician will call you back "
    + "within 2 hours during business hours. Is there anything else I can help with?"
  const ForwardPrefix := "I've forwarded your request to the "
  const ForwardSuffix := " team. Someone will get back to you shortly. Is there anything else?"

  /** The reply of `transfer_to_department`, chosen on the lower-cased department name. */
  function DepartmentReply(department: string): string {
    if Lower(department) == "sales" then SalesReply
    else if Lower(department) == "support" then SupportReply
    else ForwardPrefix + department + ForwardSuffix
  }

  /**
   * Routing ignores letter case: two names that lower-case alike get the same
   * fixed reply when they name sales or support.
   */
  lemma DepartmentRoutingIgnoresCase(d1: string, d2: string)
    requires Lower(d1) == Lower(d2)
    ensures Lower(d1) == "sales" ==> DepartmentReply(d1) == DepartmentReply(d2) == SalesReply
    ensures Lower(d1) == "support" ==> DepartmentReply(d1) == DepartmentReply(d2) == SupportReply
  {
  }

  /** Any other department is named in the reply exactly as the model gave it. */
  lemma {:induction false} OtherDepartmentNamed(department: string)
    requires Lower(department) != "sales" && Lower(department) != "support"
    ensures OccursAt(DepartmentReply(department), department, |ForwardPrefix|)
    ensures Contains(DepartmentReply(department), department)
  {
    var r := DepartmentReply(department);
    assert r[|ForwardPrefix|..|ForwardPrefix| + |department|] == department;
    assert OccursAt(r, department, |ForwardPrefix|);
  }

  /** The transcript logged at close: entries joined with " | ", or "No transcript" when there are none. */
  function CloseTranscript(parts: seq<string>): string {
    if parts == [] then "No transcript" else Join(parts, " | ")
  }

  /**
   * The logged transcript is never empty when no entry is; one more entry adds
   * " | " and the entry at the end.
   */
  lemma {:induction false} CloseTranscriptShape(parts: seq<string>, x: string)
    ensures parts == [] ==> CloseTranscript(parts + [x]) == x
    ensures parts != [] ==> CloseTranscript(parts + [x]) == CloseTranscript(parts) + " | " + x
    ensures x != "" ==> CloseTranscript(parts + [x]) != ""
  {
    JoinAppend(parts, x, " | ");
  }

  /** The shape the agent's entries share: a leading "[". */
  predicate IsEntry(line: string) {
    line != [] && line[0] == '['
  }

  /** A participant kind, as the LiveKit room reports it. */
  datatype ParticipantKind = Standard | Ingress | Egress | Sip | Agent

  datatype Participant = Participant(identity: string, kind: ParticipantKind)

  /** Position `k` holds a SIP participant and no SIP participant comes after it. */
  predicate IsLastSip(participants: seq<Participant>, k: int) {
    0 <= k < |participants| && participants[k].kind == Sip
    && forall j :: k < j < |participants| ==> participants[j].kind != Sip
  }

  /** The identity of the last SIP participant in iteration order, or "browser-user" when there is none. */
  function LastSipIdentity(participants: seq<Participant>): (n: string)
    ensures (forall k :: 0 <= k < |participants| ==> participants[k].kind != Sip) ==> n == "browser-user"
    ensures (exists k :: 0 <= k < |participants| && participants[k].kind == Sip) ==>
      exists k :: IsLastSip(participants, k) && n == participants[k].identity
  {
    if participants == [] then "browser-user"
    else
      var last := participants[|participants| - 1];
      var init := participants[..|participants| - 1];
      if last.kind == Sip then
        assert IsLastSip(participants, |participants| - 1);
        last.identity
      else
        assert forall k :: 0 <= k < |init| ==> init[k] == participants[k];
        assert forall k :: IsLastSip(init, k) ==> IsLastSip(participants, k);
        LastSipIdentity(init)
  }

  /** A non-SIP participant never changes the caller number; a SIP one always sets it. */
  lemma LastSipIdentityStep(participants: seq<Participant>, p: Participant)
    ensures p.kind != Sip ==> LastSipIdentity(participants + [p]) == LastSipIdentity(participants)
    ensures p.kind == Sip ==> LastSipIdentity(participants + [p]) == p.identity
  {
    assert (participants + [p])[..|participants|] == participants;
  }

  /** The caller-number loop of `entrypoint`: the last SIP participant's identity wins. */
  method SelectCallerNumber(participants: seq<Participant>) returns (callerNumber: string)
    ensures callerNumber == LastSipIdentity(participants)
  {
    callerNumber := "browser-user";
    for i := 0 to |participants|
      invariant callerNumber == LastSipIdentity(participants[..i])
    {
      var participant := participants[i];
      if participant.kind == Sip {
        callerNumber := participant.identity;
      }
      assert participants[..i + 1] == participants[..i] + [participant];
      LastSipIdentityStep(participants[..i], participant);
    }
    assert participants[..|participants|] == participants;
  }

  /** The agent's tracking state for one call. */
  class Receptionist {
    var callStartTime: real
    var transcriptParts: seq<string>
    var detectedIntent: string
    var callerNumber: string

    /** Every recorded entry starts with "[", as the intent and transfer entries do, so none is empty. */
    ghost predicate Valid()
      reads this
    {
      forall k :: 0 <= k < |transcriptParts| ==> IsEntry(transcriptParts[k])
    }

    /** A new agent: started at `now`, nothing recorded, intent and caller both "unknown". */
    constructor (now: real)
      ensures Valid()
      ensures callStartTime == now && transcriptParts == []
      ensures detectedIntent == "unknown" && callerNumber == "unknown"
    {
      callStartTime := now;
      transcriptParts := [];
      detectedIntent := "unknown";
      callerNumber := "unknown";
    }

    /** `log_caller_intent`: the intent is overwritten, one entry is appended, and nothing else changes. */
    method LogCallerIntent(intent: string, summary: string) returns (reply: string)
      requires Valid()
      modifies this
      ensures Valid()
      ensures detectedIntent == intent
      ensures transcriptParts == old(transcriptParts) + [IntentEntry(intent, summary)]
      ensures callerNumber == old(callerNumber) && callStartTime == old(callStartTime)
      ensures reply == "Intent recorded as: " + intent + ". Continue helping the caller."
    {
      detectedIntent := intent;
      transcriptParts := transcriptParts + [IntentEntry(intent, summary)];
      reply := "Intent recorded as: " + intent + ". Continue helping the caller.";
    }

    /**
     * `transfer_to_department`: one transfer entry is appended whatever the
     * department, the intent is left alone, and the reply depends on the department.
     */
    method TransferToDepartment(department: string, callerName: string, reason: string) returns (reply: string)
      requires Valid()
      modifies this
      ensures Valid()
      ensures transcriptParts == old(transcriptParts) + [TransferEntry(department, callerName, reason)]
      ensures detectedIntent == old(detectedIntent)
      ensures callerNumber == old(callerNumber) && callStartTime == old(callStartTime)
      ensures reply == DepartmentReply(department)
    {
      transcriptParts := transcriptParts + [TransferEntry(department, callerName, reason)];
      if Lower(department) == "sales" {
        reply := SalesReply;
      } else if Lower(department) == "support" {
        reply := SupportReply;
      } else {
        reply := ForwardPrefix + department + ForwardSuffix;
      }
    }

    /**
     * `on_session_close`: the record handed to `log_call`. Its transcript is
     * never empty, and its duration is the whole seconds elapsed.
     */
    method OnSessionClose(now: real) returns (record: CallRecord)
      requires Valid()
      ensures record.callerNumber == callerNumber && record.detectedIntent == detectedIntent
      ensures record.transcript == CloseTranscript(transcriptParts) && record.transcript != ""
      ensures record.duration == ElapsedSeconds(callStartTime, now)
      ensures now >= callStartTime ==> record.duration >= 0
    {
      var transcript := if transcriptParts != [] then Join(transcriptParts, " | ") else "No transcript";
      if transcriptParts != [] {
        var n := |transcriptParts|;
        CloseTranscriptShape(transcriptParts[..n - 1], transcriptParts[n - 1]);
        assert transcriptParts[..n - 1] + [transcriptParts[n - 1]] == transcriptParts;
      }
      record := CallRecord(callerNumber, transcript, detectedIntent, ElapsedSeconds(callStartTime, now));
    }
  }

  /** `entrypoint`: picks the caller number from the participants, then builds the agent with it. */
  method Entrypoint(participants: seq<Participant>, now: real) returns (agent: Receptionist)
    ensures fresh(agent) && agent.Valid()
    ensures agent.callerNumber == LastSipIdentity(participants)
    ensures agent.transcriptParts == [] && agent.detectedIntent == "unknown" && agent.callStartTime == now
  {
    var callerNumber := SelectCallerNumber(participants);
    agent := new Receptionist(now);
    agent.callerNumber := callerNumber;
  }
}
