/** When a call's qualification columns agree with its disposition. */
module CallAgreement {
  import opened Prelude
  import opened CallPolicies
  import opened CallIngest
  import opened CallIngestTheorems
  import opened Transitions

  /** The verdict in the qualification columns. */
  ghost function Verdict(call: CallRow): (QualificationStatus, Option<string>) {
    (call.qualificationStatus, call.disqualificationReason)
  }

  /** What the disposition of a call implies for its qualification columns, if anything. */
  ghost function Implied(call: CallRow): Option<(QualificationStatus, Option<string>)> {
    if call.disposition.Some? then QualificationResult(call.disposition.value) else None
  }

  /** The columns say what the disposition implies. */
  ghost predicate Agrees(call: CallRow) {
    Implied(call).None? || Implied(call).value == Verdict(call)
  }

  ghost predicate AllAgree(db: Db) {
    forall id :: id in db.calls ==> Agrees(db.calls[id])
  }

  // ----- one step -----

  /** The operator may set any disposition but one that implies a status without a reason, on a
      call that has a reason. */
  lemma DisposeAgrees(db: Db, id: string, disposition: string)
    requires id in db.calls && CanUpdateDisposition(db.calls[id].status)
    ensures var implied := QualificationResult(disposition);
            Agrees(Dispose(db, id, disposition).0.calls[id]) <==>
              implied.None? || implied.value.1.Some? || db.calls[id].disqualificationReason.None?
  {
  }

  /** The evidence of a call once a field has been captured. */
  ghost function EvidenceWith(db: Db, id: string, body: Body): map<string, FieldValue>
    requires body.FieldBody?
  {
    Evidence(db.fields, id)[body.field := body.value]
  }

  /** The yes or no that the evidence states for a field, if it states one. */
  function Stated(evidence: map<string, FieldValue>, field: string): Option<bool> {
    if field in evidence then CoerceBool(evidence[field]) else None
  }

  /** The evidence bears a disposition out: a qualified one needs two stated yes, `disqualified_age`
      an age stated out of range and part A/B not denied, `incomplete` neither a no nor two yes.  No
      other disposition that implies a qualification is ever borne out. */
  predicate BearsOut(evidence: map<string, FieldValue>, disposition: string) {
    var partAb, age := Stated(evidence, "medicare_part_ab"), Stated(evidence, "age_in_range");
    if disposition in {"qualified_transferred", "qualified_transfer_failed"} then
      partAb == Some(true) && age == Some(true)
    else if disposition == "disqualified_age" then
      partAb != Some(false) && age == Some(false)
    else if disposition == "incomplete" then
      partAb != Some(false) && age != Some(false) && !(partAb == Some(true) && age == Some(true))
    else
      QualificationResult(disposition).None?
  }

  lemma EvidenceDecides(evidence: map<string, FieldValue>, disposition: string)
    ensures BearsOut(evidence, disposition) <==>
      QualificationResult(disposition).None?
        || QualificationResult(disposition).value == EvaluateQualification(evidence)
  {
  }

  /** A captured field leaves the record in agreement exactly when the call has no disposition or
      one that the evidence, with the field, bears out; whether the call is open or closed. */
  lemma CaptureAgrees(db: Db, id: string, body: Body, ts: int)
    requires id in db.calls && body.FieldBody? && body.field != ""
    ensures var disposition := db.calls[id].disposition;
            Agrees(Capture(db, id, body, ts).calls[id]) <==>
              disposition.None? || BearsOut(EvidenceWith(db, id, body), disposition.value)
  {
    var row := FieldRow(id, body.field, body.value, ts);
    assert (db.fields + [row])[..|db.fields|] == db.fields;
    assert Evidence(db.fields + [row], id) == EvidenceWith(db, id, body);
    if db.calls[id].disposition.Some? { EvidenceDecides(EvidenceWith(db, id, body), db.calls[id].disposition.value); }
  }

  /** Closing a call agrees when it sets a disposition, and otherwise exactly when the record
      agreed before. */
  lemma CloseAgrees(db: Db, id: string, body: Body, ts: int)
    requires id in db.calls && body.ClosedBody?
    ensures var call, proposed := db.calls[id], body.proposedDisposition;
            Agrees(Close(db, id, body, ts).calls[id]) <==>
              (!Terminal(call.status) && proposed != "" && Some(proposed) != call.disposition) || Agrees(call)
  {
  }

  // ----- runs -----

  /** The message records a captured field for a call. */
  ghost predicate Captures(db: Db, m: Message) {
    && m.Message? && m.callId.Id? && m.externalEventId != ""
    && m.body.FieldBody? && m.body.field != ""
    && m.callId.id in db.calls && (m.callId.id, m.externalEventId) !in db.events
  }

  /** The step does not part a call's columns from its disposition. */
  ghost predicate Harmonious(db: Db, s: Step) {
    match s
    case Operator(id, disposition) =>
      var implied := QualificationResult(disposition);
      || id !in db.calls || !CanUpdateDisposition(db.calls[id].status)
      || implied.None? || implied.value.1.Some? || db.calls[id].disqualificationReason.None?
    case Deliver(m, now, luck) =>
      luck.LostBeforeCommit? || !Captures(db, m) ||
      var disposition := db.calls[m.callId.id].disposition;
      disposition.None? || BearsOut(EvidenceWith(db, m.callId.id, m.body), disposition.value)
  }

  /** Every call but one keeps its row. */
  ghost predicate OnlyCall(before: Db, after: Db, id: string) {
    && id in before.calls && after.calls.Keys == before.calls.Keys
    && forall c :: c in before.calls && c != id ==> after.calls[c] == before.calls[c]
  }

  lemma OneCallDecides(before: Db, after: Db, id: string)
    requires AllAgree(before) && OnlyCall(before, after, id)
    ensures AllAgree(after) <==> Agrees(after.calls[id])
  {
  }

  lemma OperatorDecides(db: Db, id: string, disposition: string)
    requires AllAgree(db)
    ensures AllAgree(Take(db, Operator(id, disposition))) <==> Harmonious(db, Operator(id, disposition))
  {
    if id in db.calls && CanUpdateDisposition(db.calls[id].status) {
      DisposeAgrees(db, id, disposition);
      OneCallDecides(db, Dispose(db, id, disposition).0, id);
    }
  }

  lemma OpenKeepsAgreement(db: Db, id: string, ext: string, body: Body, ts: int)
    requires AllAgree(db) && body.OpenedBody?
    ensures AllAgree(Open(db, id, ext, body, ts).0)
  {
  }

  lemma CaptureDecides(db: Db, id: string, body: Body, ts: int)
    requires AllAgree(db) && id in db.calls && body.FieldBody? && body.field != ""
    ensures AllAgree(Capture(db, id, body, ts)) <==>
      db.calls[id].disposition.None? || BearsOut(EvidenceWith(db, id, body), db.calls[id].disposition.value)
  {
    CaptureAgrees(db, id, body, ts);
    OneCallDecides(db, Capture(db, id, body, ts), id);
  }

  lemma OthersKeepAgreement(db: Db, id: string, body: Body, ts: int)
    requires AllAgree(db) && id in db.calls && !body.OpenedBody? && !(body.FieldBody? && body.field != "")
    ensures AllAgree(Apply(db, id, body, ts))
  {
    if body.ClosedBody? {
      CloseAgrees(db, id, body, ts);
      OneCallDecides(db, Close(db, id, body, ts), id);
    }
  }

  lemma DeliveryDecides(db: Db, m: Message, now: int)
    requires AllAgree(db)
    ensures AllAgree(Ingest(db, m, now).0) <==> Harmonious(db, Deliver(m, now, Fine))
  {
    if m.Message? && m.callId.Id? && m.externalEventId != "" {
      var id, ext, ts := m.callId.id, m.externalEventId, m.eventTs.GetOr(now);
      if m.body.OpenedBody? {
        OpenKeepsAgreement(db, id, ext, m.body, ts);
      } else if id in db.calls && (id, ext) !in db.events {
        var recorded := Record(db, id, ext, EventTypeOf(m.body), ts);
        if Captures(db, m) { CaptureDecides(recorded, id, m.body, ts); }
        else { OthersKeepAgreement(recorded, id, m.body, ts); }
      }
    }
  }

  lemma StepDecides(db: Db, s: Step)
    requires AllAgree(db)
    ensures AllAgree(Take(db, s)) <==> Harmonious(db, s)
  {
    match s
    case Operator(id, disposition) => OperatorDecides(db, id, disposition);
    case Deliver(m, now, luck) => DeliveryDecides(db, m, now);
  }

  /** Disposition and qualification agree on every call at every point of a run exactly when every
      step of the run is harmonious in the state it happens in. */
  lemma AgreementExactly(trace: seq<Step>)
    ensures Throughout(Take, AllAgree, EMPTY, trace) <==> Possible(Take, Harmonious, EMPTY, trace)
  {
    forall db, s | AllAgree(db) ensures AllAgree(Take(db, s)) <==> Harmonious(db, s) { StepDecides(db, s); }
    KeptExactly(Take, Harmonious, AllAgree, EMPTY, trace);
  }

  // ----- two runs that part them -----

  ghost function Opening(id: string): Step {
    Deliver(OpenOf(id), 0, Fine)
  }

  /** An open call that was given a disposition by the operator. */
  ghost predicate Disposed(db: Db, id: string, disposition: string) {
    && id in db.calls && !Terminal(db.calls[id].status)
    && db.calls[id].disposition == Some(disposition) && QualificationResult(disposition).Some?
    && Verdict(db.calls[id]) == QualificationResult(disposition).value
    && db.fields == [] && db.events.Keys == {(id, "open")}
  }

  ghost predicate JustOpened(db: Db, id: string) {
    && id in db.calls && db.calls[id].status == InProgress
    && db.calls[id].disposition == None && db.calls[id].disqualificationReason == None
    && db.fields == [] && db.events.Keys == {(id, "open")}
  }

  lemma OpeningOpens(id: string)
    ensures JustOpened(Take(EMPTY, Opening(id)), id)
  {
    assert forall c :: !OnChannel(EMPTY, c, "");
  }

  lemma FirstDisposition(db: Db, id: string)
    requires JustOpened(db, id)
    ensures Disposed(Take(db, Operator(id, "disqualified_age")), id, "disqualified_age")
  {
  }

  /** A second disposition of the operator keeps the first one's reason. */
  lemma SecondDisposition(db: Db, id: string)
    requires Disposed(db, id, "disqualified_age")
    ensures var after := Take(db, Operator(id, "qualified_transferred"));
            id in after.calls && !Agrees(after.calls[id])
  {
    DisposeAgrees(db, id, "qualified_transferred");
  }

  ghost function PartAbCaptured(id: string): Step {
    Deliver(Message(Id(id), "field", Some(1), FieldBody("", "medicare_part_ab", Bool(true))), 1, Fine)
  }

  lemma PartAbLands(db: Db, id: string)
    requires id in db.calls && (id, "field") !in db.events
    ensures var body := PartAbCaptured(id).message.body;
            Take(db, PartAbCaptured(id)) == Capture(Record(db, id, "field", EventTypeOf(body), 1), id, body, 1)
  {
  }

  lemma AgeNotBorneOut()
    ensures !BearsOut(map["medicare_part_ab" := Bool(true)], "disqualified_age")
  {
  }

  /** A field captured after the operator's disposition evaluates the call afresh. */
  lemma LaterField(db: Db, id: string)
    requires Disposed(db, id, "disqualified_age")
    ensures var after := Take(db, PartAbCaptured(id));
            id in after.calls && !Agrees(after.calls[id])
  {
    var body := PartAbCaptured(id).message.body;
    var recorded := Record(db, id, "field", EventTypeOf(body), 1);
    PartAbLands(db, id);
    AgeNotBorneOut();
    assert EvidenceWith(recorded, id, body) == map["medicare_part_ab" := Bool(true)];
    CaptureAgrees(recorded, id, body, 1);
  }

  /** Both runs, from the empty database. */
  lemma AgreementCanFail(id: string)
    ensures var disposed := [Opening(id), Operator(id, "disqualified_age")];
            && !Throughout(Take, AllAgree, EMPTY, disposed + [Operator(id, "qualified_transferred")])
            && !Throughout(Take, AllAgree, EMPTY, disposed + [PartAbCaptured(id)])
  {
    var disposed := [Opening(id), Operator(id, "disqualified_age")];
    assert disposed == [] + [Opening(id)] + [Operator(id, "disqualified_age")];
    RunOneMore(Take, EMPTY, [], Opening(id));
    RunOneMore(Take, EMPTY, [] + [Opening(id)], Operator(id, "disqualified_age"));
    OpeningOpens(id);
    FirstDisposition(Take(EMPTY, Opening(id)), id);
    SecondDisposition(Run(EMPTY, disposed), id);
    LaterField(Run(EMPTY, disposed), id);
    EndsApart(disposed, Operator(id, "qualified_transferred"), id);
    EndsApart(disposed, PartAbCaptured(id), id);
  }

  lemma EndsApart(trace: seq<Step>, s: Step, id: string)
    requires var after := Take(Run(EMPTY, trace), s); id in after.calls && !Agrees(after.calls[id])
    ensures !Throughout(Take, AllAgree, EMPTY, trace + [s])
  {
    RunOneMore(Take, EMPTY, trace, s);
    assert (trace + [s])[..|trace| + 1] == trace + [s];
    assert !HoldsAfter(Take, AllAgree, EMPTY, trace + [s], |trace| + 1);
  }
}
