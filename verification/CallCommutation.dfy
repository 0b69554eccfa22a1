/** Which messages of a call may arrive in either order, and what a retried batch does. */
module CallCommutation {
  import opened Prelude
  import opened CallPolicies
  import opened CallIngest
  import opened CallIngestTheorems
  import opened Transitions

  // ----- commuting messages -----

  ghost predicate Identified(m: Message) {
    m.Message? && m.callId.Id? && m.externalEventId != ""
  }

  ghost function Then(db: Db, first: Message, now1: int, second: Message, now2: int): Db {
    Ingest(Ingest(db, first, now1).0, second, now2).0
  }

  /** The part of a message's effect that is not its event row. */
  ghost function Effect(db: Db, m: Message, now: int): Db
    requires Identified(m) && !m.body.OpenedBody?
  {
    if m.callId.id in db.calls then Apply(db, m.callId.id, m.body, m.eventTs.GetOr(now)) else db
  }

  ghost predicate Lands(db: Db, m: Message) {
    Identified(m) && !m.body.OpenedBody? && m.callId.id in db.calls && (m.callId.id, m.externalEventId) !in db.events
  }

  ghost function EventsWith(db: Db, m: Message, now: int): map<(string, string), EventRow>
    requires Identified(m)
  {
    db.events[(m.callId.id, m.externalEventId) := EventRow(EventTypeOf(m.body), m.eventTs.GetOr(now))]
  }

  lemma EventsIndependent(db: Db, id: string, body: Body, ts: int, events: map<(string, string), EventRow>)
    requires id in db.calls && !body.OpenedBody?
    ensures Apply(db.(events := events), id, body, ts) == Apply(db, id, body, ts).(events := events)
  {
  }

  /** A message either lands, recording its event and taking its effect, or changes nothing. */
  lemma LandsOrNothing(db: Db, m: Message, now: int)
    requires Identified(m) && !m.body.OpenedBody?
    ensures Ingest(db, m, now).0 == if Lands(db, m) then Effect(db, m, now).(events := EventsWith(db, m, now)) else db
  {
    if Lands(db, m) {
      EventsIndependent(db, m.callId.id, m.body, m.eventTs.GetOr(now), EventsWith(db, m, now));
    }
  }

  lemma EffectKeepsKeys(db: Db, m: Message, now: int)
    requires Lands(db, m)
    ensures Effect(db, m, now).calls.Keys == db.calls.Keys && Effect(db, m, now).events == db.events
  {
    ApplyKeepsKeys(db, m.callId.id, m.body, m.eventTs.GetOr(now));
  }

  lemma ApplyKeepsKeys(db: Db, id: string, body: Body, ts: int)
    requires id in db.calls && !body.OpenedBody?
    ensures Apply(db, id, body, ts).calls.Keys == db.calls.Keys && Apply(db, id, body, ts).events == db.events
  {
    match body
    case FieldBody(_, _, _) => CaptureKeepsKeys(db, id, body, ts);
    case ClosedBody(_, _, _, _, _, _) => CloseKeepsKeys(db, id, body, ts);
    case _ =>
  }

  lemma CaptureKeepsKeys(db: Db, id: string, body: Body, ts: int)
    requires id in db.calls && body.FieldBody?
    ensures Capture(db, id, body, ts).calls.Keys == db.calls.Keys && Capture(db, id, body, ts).events == db.events
  {
  }

  lemma CloseKeepsKeys(db: Db, id: string, body: Body, ts: int)
    requires id in db.calls && body.ClosedBody?
    ensures Close(db, id, body, ts).calls.Keys == db.calls.Keys && Close(db, id, body, ts).events == db.events
  {
  }

  /** Two identified messages that are not duplicates of each other: landing first or second
      makes no difference to whether the other lands. */
  lemma BothOrders(db: Db, a: Message, nowA: int, b: Message, nowB: int)
    requires Identified(a) && Identified(b) && !a.body.OpenedBody? && !b.body.OpenedBody?
    requires (a.callId, a.externalEventId) != (b.callId, b.externalEventId)
    requires Lands(db, a) && Lands(db, b)
    ensures Then(db, a, nowA, b, nowB) ==
      Effect(Effect(db, a, nowA), b, nowB).(events := Then(db, b, nowB, a, nowA).events)
  {
    SecondLands(db, a, nowA, b, nowB);
    SecondLands(db, b, nowB, a, nowA);
    EventsAgree(db, Ingest(db, a, nowA).0, Ingest(db, b, nowB).0, a, nowA, b, nowB);
  }

  lemma EventsAgree(db: Db, afterA: Db, afterB: Db, a: Message, nowA: int, b: Message, nowB: int)
    requires Identified(a) && Identified(b) && (a.callId, a.externalEventId) != (b.callId, b.externalEventId)
    requires afterA.events == EventsWith(db, a, nowA) && afterB.events == EventsWith(db, b, nowB)
    ensures EventsWith(afterA, b, nowB) == EventsWith(afterB, a, nowA)
  {
  }

  lemma SecondLands(db: Db, a: Message, nowA: int, b: Message, nowB: int)
    requires Identified(a) && Identified(b) && !a.body.OpenedBody? && !b.body.OpenedBody?
    requires (a.callId, a.externalEventId) != (b.callId, b.externalEventId)
    requires Lands(db, a) && Lands(db, b)
    ensures Ingest(db, a, nowA).0.events == EventsWith(db, a, nowA)
    ensures Then(db, a, nowA, b, nowB) ==
      Effect(Effect(db, a, nowA), b, nowB).(events := EventsWith(Ingest(db, a, nowA).0, b, nowB))
  {
    var afterA := Ingest(db, a, nowA).0;
    LandsOrNothing(db, a, nowA);
    EffectKeepsKeys(db, a, nowA);
    LandsOrNothing(afterA, b, nowB);
    EventsIndependent(Effect(db, a, nowA), b.callId.id, b.body, b.eventTs.GetOr(nowB), EventsWith(db, a, nowA));
  }

  /** A message that does not land still does not land after another one. */
  lemma StaysOut(db: Db, a: Message, b: Message, nowB: int)
    requires Identified(a) && Identified(b) && !a.body.OpenedBody? && !b.body.OpenedBody?
    requires (a.callId, a.externalEventId) != (b.callId, b.externalEventId)
    ensures Lands(Ingest(db, b, nowB).0, a) <==> Lands(db, a)
  {
    LandsOrNothing(db, b, nowB);
    if Lands(db, b) { EffectKeepsKeys(db, b, nowB); }
  }

  lemma OrdersAgree(db: Db, a: Message, nowA: int, b: Message, nowB: int)
    requires Identified(a) && Identified(b) && !a.body.OpenedBody? && !b.body.OpenedBody?
    requires (a.callId, a.externalEventId) != (b.callId, b.externalEventId)
    requires Lands(db, a) && Lands(db, b) ==>
      Effect(Effect(db, a, nowA), b, nowB) == Effect(Effect(db, b, nowB), a, nowA)
    ensures Then(db, a, nowA, b, nowB) == Then(db, b, nowB, a, nowA)
  {
    StaysOut(db, a, b, nowB);
    StaysOut(db, b, a, nowA);
    LandsOrNothing(db, a, nowA);
    LandsOrNothing(db, b, nowB);
    LandsOrNothing(Ingest(db, a, nowA).0, b, nowB);
    LandsOrNothing(Ingest(db, b, nowB).0, a, nowA);
    if Lands(db, a) && Lands(db, b) {
      BothOrders(db, a, nowA, b, nowB);
      BothOrders(db, b, nowB, a, nowA);
    }
  }

  /** A `closed` message commutes with every node or transcript message, of the same call or
      another, in every state, recorded before or not. */
  lemma ClosedCommutesWithConversation(db: Db, closed: Message, now1: int, other: Message, now2: int)
    requires Identified(closed) && closed.body.ClosedBody?
    requires Identified(other) && (other.body.StateBody? || other.body.TranscriptBody?)
    requires (closed.callId, closed.externalEventId) != (other.callId, other.externalEventId)
    ensures Then(db, closed, now1, other, now2) == Then(db, other, now2, closed, now1)
  {
    if Lands(db, closed) && Lands(db, other) {
      CloseThenConverse(db, closed.callId.id, closed.body, closed.eventTs.GetOr(now1),
                        other.callId.id, other.body, other.eventTs.GetOr(now2));
    }
    OrdersAgree(db, closed, now1, other, now2);
  }

  lemma CloseThenConverse(db: Db, id: string, closed: Body, ts: int, id': string, other: Body, ts': int)
    requires id in db.calls && id' in db.calls
    requires closed.ClosedBody? && (other.StateBody? || other.TranscriptBody?)
    ensures Apply(Close(db, id, closed, ts), id', other, ts') == Close(Apply(db, id', other, ts'), id, closed, ts)
  {
  }

  // ----- a closed message and a captured field -----

  /** The qualification the call is given by the evidence once the field is captured. */
  ghost function EvidenceVerdict(db: Db, m: Message, now: int): (QualificationStatus, Option<string>)
    requires Identified(m) && m.body.FieldBody?
  {
    var captured := FieldRow(m.callId.id, m.body.field, m.body.value, m.eventTs.GetOr(now));
    EvaluateQualification(Evidence(db.fields + [captured], m.callId.id))
  }

  /** The qualification that closing the call with this message imposes, if any. */
  ghost function Imposed(call: CallRow, body: Body): Option<(QualificationStatus, Option<string>)>
    requires body.ClosedBody?
  {
    if body.proposedDisposition == "" || Some(body.proposedDisposition) == call.disposition then None
    else QualificationResult(body.proposedDisposition)
  }

  /** Both messages take effect, on the same call, which is still open. */
  ghost predicate Meet(db: Db, closed: Message, field: Message)
    requires Identified(closed) && closed.body.ClosedBody?
    requires Identified(field) && field.body.FieldBody?
  {
    && Lands(db, closed) && Lands(db, field) && closed.callId == field.callId
    && field.body.field != "" && !Terminal(db.calls[closed.callId.id].status)
  }

  /** Closing imposes another qualification than the evidence gives, so the last one wins. */
  ghost predicate Contradicts(db: Db, closed: Message, field: Message, now: int)
    requires Identified(closed) && closed.body.ClosedBody?
    requires Identified(field) && field.body.FieldBody?
  {
    && Meet(db, closed, field)
    && var imposed := Imposed(db.calls[closed.callId.id], closed.body);
    imposed.Some? && imposed.value != EvidenceVerdict(db, field, now)
  }

  /** Closing imposes no qualification and the evidence changes the status, so the event quotes
      the status before or after. */
  ghost predicate QuotesOther(db: Db, closed: Message, field: Message, now: int)
    requires Identified(closed) && closed.body.ClosedBody?
    requires Identified(field) && field.body.FieldBody?
  {
    && Meet(db, closed, field)
    && Imposed(db.calls[closed.callId.id], closed.body).None?
    && db.calls[closed.callId.id].qualificationStatus != EvidenceVerdict(db, field, now).0
  }

  /** A `closed` and a field message, of the same call or of two, leave the same tables in either
      order exactly when they do not contradict each other, and the same outbox as well exactly
      when the event does not quote another status either. */
  lemma ClosedAndField(db: Db, closed: Message, now1: int, field: Message, now2: int)
    requires Identified(closed) && closed.body.ClosedBody?
    requires Identified(field) && field.body.FieldBody?
    requires (closed.callId, closed.externalEventId) != (field.callId, field.externalEventId)
    ensures Then(db, closed, now1, field, now2) == Then(db, field, now2, closed, now1) <==>
      !Contradicts(db, closed, field, now2) && !QuotesOther(db, closed, field, now2)
    ensures
      Then(db, closed, now1, field, now2).(outbox := []) == Then(db, field, now2, closed, now1).(outbox := []) <==>
      !Contradicts(db, closed, field, now2)
  {
    if Meet(db, closed, field) {
      BothOrders(db, closed, now1, field, now2);
      BothOrders(db, field, now2, closed, now1);
      EffectsOfBothOrders(db, closed, now1, field, now2);
    } else {
      if Lands(db, closed) && Lands(db, field) { ApartEffects(db, closed, now1, field, now2); }
      OrdersAgree(db, closed, now1, field, now2);
    }
  }

  lemma ApartEffects(db: Db, closed: Message, now1: int, field: Message, now2: int)
    requires Identified(closed) && closed.body.ClosedBody? && Lands(db, closed)
    requires Identified(field) && field.body.FieldBody? && Lands(db, field)
    requires !Meet(db, closed, field)
    ensures Effect(Effect(db, closed, now1), field, now2) == Effect(Effect(db, field, now2), closed, now1)
  {
    var id, ts, id', ts' := closed.callId.id, closed.eventTs.GetOr(now1), field.callId.id, field.eventTs.GetOr(now2);
    if field.body.field != "" && !Terminal(db.calls[id].status) {
      CloseElsewhere(db, id, closed.body, ts, id', field.body, ts');
    }
  }

  lemma OtherKeysCommute(calls: map<string, CallRow>, id: string, a: CallRow, id': string, b: CallRow)
    requires id != id'
    ensures calls[id := a][id' := b] == calls[id' := b][id := a]
  {
  }

  lemma CloseElsewhere(db: Db, id: string, closed: Body, ts: int, id': string, field: Body, ts': int)
    requires id in db.calls && id' in db.calls && id != id'
    requires closed.ClosedBody? && field.FieldBody? && field.field != "" && !Terminal(db.calls[id].status)
    ensures Capture(Close(db, id, closed, ts), id', field, ts') == Close(Capture(db, id', field, ts'), id, closed, ts)
  {
    var call, closedDb := db.calls[id], Close(db, id, closed, ts);
    var captured := FieldRow(id', field.field, field.value, ts');
    var judged := Judged(db.calls[id'], EvaluateQualification(Evidence(db.fields + [captured], id')));
    CloseOf(db, id, call, closed, ts);
    CapturedDb(closedDb, id', field, ts');
    CapturedDb(db, id', field, ts');
    CloseOf(Capture(db, id', field, ts'), id, call, closed, ts);
    OtherKeysCommute(db.calls, id, ClosedCall(call, closed, ts), id', judged);
  }

  ghost function Judged(call: CallRow, verdict: (QualificationStatus, Option<string>)): CallRow {
    call.(qualificationStatus := verdict.0, disqualificationReason := verdict.1)
  }

  /** A call closed and a field captured: the row, and the row the event was made from. */
  ghost function ClosedWithField(
      db: Db, id: string, row: CallRow, quoted: CallRow, closed: Body, ts: int, captured: FieldRow): Db
    requires closed.ClosedBody?
  {
    db.(calls := db.calls[id := row],
        fields := db.fields + [captured],
        performance := UpsertPerformance(db.performance, id, closed.performance),
        outbox := db.outbox + [CompletedEvent(id, quoted, ts, closed.performance)])
  }

  lemma CloseThenCapture(db: Db, id: string, closed: Body, ts: int, field: Body, ts': int)
    requires id in db.calls && closed.ClosedBody? && !Terminal(db.calls[id].status)
    requires field.FieldBody? && field.field != ""
    ensures var captured := FieldRow(id, field.field, field.value, ts');
            var a := ClosedCall(db.calls[id], closed, ts);
            var row := Judged(a, EvaluateQualification(Evidence(db.fields + [captured], id)));
            Capture(Close(db, id, closed, ts), id, field, ts') == ClosedWithField(db, id, row, a, closed, ts, captured)
  {
  }

  lemma CaptureThenClose(db: Db, id: string, closed: Body, ts: int, field: Body, ts': int)
    requires id in db.calls && closed.ClosedBody? && !Terminal(db.calls[id].status)
    requires field.FieldBody? && field.field != ""
    ensures var captured := FieldRow(id, field.field, field.value, ts');
            var judged := Judged(db.calls[id], EvaluateQualification(Evidence(db.fields + [captured], id)));
            var b := ClosedCall(judged, closed, ts);
            Close(Capture(db, id, field, ts'), id, closed, ts) == ClosedWithField(db, id, b, b, closed, ts, captured)
  {
    var captured := FieldRow(id, field.field, field.value, ts');
    var judged := Judged(db.calls[id], EvaluateQualification(Evidence(db.fields + [captured], id)));
    CapturedDb(db, id, field, ts');
    CloseOf(Capture(db, id, field, ts'), id, judged, closed, ts);
    assert db.calls[id := judged][id := ClosedCall(judged, closed, ts)] ==
      db.calls[id := ClosedCall(judged, closed, ts)];
  }

  lemma CapturedDb(db: Db, id: string, field: Body, ts': int)
    requires id in db.calls && field.FieldBody? && field.field != ""
    ensures var captured := FieldRow(id, field.field, field.value, ts');
            var judged := Judged(db.calls[id], EvaluateQualification(Evidence(db.fields + [captured], id)));
            Capture(db, id, field, ts') == db.(calls := db.calls[id := judged], fields := db.fields + [captured])
  {
  }

  lemma CloseOf(db: Db, id: string, call: CallRow, closed: Body, ts: int)
    requires id in db.calls && db.calls[id] == call && closed.ClosedBody? && !Terminal(call.status)
    ensures Close(db, id, closed, ts) ==
      db.(calls := db.calls[id := ClosedCall(call, closed, ts)],
          performance := UpsertPerformance(db.performance, id, closed.performance),
          outbox := db.outbox + [CompletedEvent(id, ClosedCall(call, closed, ts), ts, closed.performance)])
  {
  }

  /** The two orders of closing and judging a row. */
  lemma RowsOfBothOrders(call: CallRow, closed: Body, ts: int, verdict: (QualificationStatus, Option<string>))
    requires closed.ClosedBody?
    ensures var imposed := Imposed(call, closed);
            var a, b := ClosedCall(call, closed, ts), ClosedCall(Judged(call, verdict), closed, ts);
            && (Judged(a, verdict) == b <==> imposed.None? || imposed.value == verdict)
            && (a.qualificationStatus == b.qualificationStatus <==>
                 imposed.Some? || call.qualificationStatus == verdict.0)
            && a.(qualificationStatus := b.qualificationStatus, disqualificationReason := b.disqualificationReason) == b
  {
  }

  /** Databases built alike are equal when their rows and their quoted statuses are. */
  lemma SameWhenRowsAre(
      db: Db, id: string, row: CallRow, quoted: CallRow, row': CallRow, quoted': CallRow, closed: Body, ts: int,
      captured: FieldRow)
    requires closed.ClosedBody?
    requires
      quoted.(qualificationStatus := quoted'.qualificationStatus,
              disqualificationReason := quoted'.disqualificationReason) == quoted'
    ensures var e := ClosedWithField(db, id, row, quoted, closed, ts, captured);
            var f := ClosedWithField(db, id, row', quoted', closed, ts, captured);
            && (e.(outbox := []) == f.(outbox := []) <==> row == row')
            && (e.outbox == f.outbox <==> quoted.qualificationStatus == quoted'.qualificationStatus)
  {
    var e := ClosedWithField(db, id, row, quoted, closed, ts, captured);
    var f := ClosedWithField(db, id, row', quoted', closed, ts, captured);
    assert e.calls[id] == row && f.calls[id] == row';
    var n := |db.outbox|;
    assert e.outbox[n] == CompletedEvent(id, quoted, ts, closed.performance);
    assert f.outbox[n] == CompletedEvent(id, quoted', ts, closed.performance);
  }

  lemma EffectsOfBothOrders(db: Db, closed: Message, now1: int, field: Message, now2: int)
    requires Identified(closed) && closed.body.ClosedBody?
    requires Identified(field) && field.body.FieldBody?
    requires Meet(db, closed, field)
    ensures var e := Effect(Effect(db, closed, now1), field, now2);
            var f := Effect(Effect(db, field, now2), closed, now1);
            && (e.(outbox := []) == f.(outbox := []) <==> !Contradicts(db, closed, field, now2))
            && (Contradicts(db, closed, field, now2)
                 || (e.outbox == f.outbox <==> !QuotesOther(db, closed, field, now2)))
            && e.events == db.events && f.events == db.events
  {
    var id, ts, ts' := closed.callId.id, closed.eventTs.GetOr(now1), field.eventTs.GetOr(now2);
    var call, verdict := db.calls[id], EvidenceVerdict(db, field, now2);
    var a, b := ClosedCall(call, closed.body, ts), ClosedCall(Judged(call, verdict), closed.body, ts);
    CloseThenCapture(db, id, closed.body, ts, field.body, ts');
    CaptureThenClose(db, id, closed.body, ts, field.body, ts');
    RowsOfBothOrders(call, closed.body, ts, verdict);
    SameWhenRowsAre(db, id, Judged(a, verdict), a, b, b, closed.body, ts,
      FieldRow(id, field.body.field, field.body.value, ts'));
  }

  // ----- the two writers of a disposition -----

  ghost predicate SameDispositionColumns(a: CallRow, b: CallRow) {
    && a.disposition == b.disposition && a.qualificationStatus == b.qualificationStatus
    && a.disqualificationReason == b.disqualificationReason && a.vicidialStatus == b.vicidialStatus
  }

  /** The operator and the closing message set a disposition on an open call alike in two cases.
      If it is new to the call: unless it implies a status without a reason and the call has a
      reason, which the operator keeps and the closing message clears.  If the call has it already,
      the closing message leaves the columns alone: when they hold what the operator would set. */
  lemma OperatorAndClose(db: Db, id: string, closed: Body, ts: int)
    requires id in db.calls && closed.ClosedBody? && closed.proposedDisposition != ""
    requires CanUpdateDisposition(db.calls[id].status)
    ensures var before, implied := db.calls[id], QualificationResult(closed.proposedDisposition);
            var vici := ToVicidialStatus(closed.proposedDisposition);
            var a, b := Dispose(db, id, closed.proposedDisposition).0.calls[id], Close(db, id, closed, ts).calls[id];
            && (Some(closed.proposedDisposition) != before.disposition ==>
                  (SameDispositionColumns(a, b) <==>
                    !(implied.Some? && implied.value.1.None? && before.disqualificationReason.Some?)))
            && (Some(closed.proposedDisposition) == before.disposition ==>
                  (SameDispositionColumns(a, b) <==>
                    && (implied.Some? ==>
                          && implied.value.0 == before.qualificationStatus
                          && (implied.value.1.None? || implied.value.1 == before.disqualificationReason))
                    && (vici.None? || vici == before.vicidialStatus)))
  {
  }

  // ----- batches -----

  ghost function Deliveries(batch: seq<Message>, clocks: seq<int>): seq<Step>
    requires |batch| == |clocks|
  {
    seq(|batch|, i requires 0 <= i < |batch| => Deliver(batch[i], clocks[i], Fine))
  }

  /** A batch is processed up to its first message that is not handled, and committed exactly
      when there is none.  Returns how many were handled. */
  lemma {:induction false} BatchIsPrefix(db: Db, batch: seq<Message>, clocks: seq<int>) returns (k: nat)
    requires |batch| == |clocks|
    ensures k <= |batch|
    ensures IngestBatch(db, batch, clocks) == (Run(db, Deliveries(batch, clocks)[..k]), k == |batch|)
    ensures forall i :: 0 <= i < k ==> OutcomeOf(Run(db, Deliveries(batch, clocks)[..i]), batch[i]) == Handled
    ensures k < |batch| ==> OutcomeOf(Run(db, Deliveries(batch, clocks)[..k]), batch[k]) != Handled
    decreases |batch|
  {
    if batch == [] { return 0; }
    var all := Deliveries(batch, clocks);
    OutcomeIgnoresClock(db, batch[0], clocks[0]);
    if OutcomeOf(db, batch[0]) != Handled {
      UnhandledIsNoOp(db, batch[0], clocks[0]);
      return 0;
    }
    var db' := Ingest(db, batch[0], clocks[0]).0;
    var k' := BatchIsPrefix(db', batch[1..], clocks[1..]);
    k := k' + 1;
    var rest := Deliveries(batch[1..], clocks[1..]);
    forall i | 0 <= i <= k' ensures Run(db, all[..i + 1]) == Run(db', rest[..i]) {
      assert all[..i + 1] == [all[0]] + rest[..i];
      RunFromFirst(Take, db, all[0], rest[..i]);
    }
    forall i | 0 <= i < k ensures OutcomeOf(Run(db, all[..i]), batch[i]) == Handled {
      if i > 0 {
        assert OutcomeOf(Run(db', rest[..i - 1]), batch[1..][i - 1]) == Handled;
        assert all[..i - 1 + 1] == all[..i];
      }
    }
    if k < |batch| {
      assert all[..k' + 1] == all[..k];
      assert batch[1..][k'] == batch[k];
    }
  }

  lemma UnhandledIsNoOp(db: Db, m: Message, now: int)
    requires OutcomeOf(db, m) != Handled
    ensures Ingest(db, m, now).0 == db
  {
  }

  /** An `opened` message without a channel: delivered again, it violates the key of its call. */
  ghost predicate AnonymousOpen(m: Message) {
    Identified(m) && m.body.OpenedBody? && m.body.channelId == ""
  }

  /** A redelivered message is handled unless it is an anonymous open, which fails. */
  lemma AbsorbedOutcome(db: Db, m: Message)
    requires Valid(db) && Absorbed(db, m)
    ensures OutcomeOf(db, m) == Handled <==> !AnonymousOpen(m)
  {
    if Identified(m) && m.body.OpenedBody? && m.body.channelId != "" {
      var c :| OnChannel(db, c, m.body.channelId) && (c, m.externalEventId) in db.events;
    }
  }

  ghost predicate HasAnonymousOpen(batch: seq<Message>, k: nat) {
    exists i :: 0 <= i < k <= |batch| && AnonymousOpen(batch[i])
  }

  lemma FirstOrLater(batch: seq<Message>, k: nat)
    requires 0 < k <= |batch|
    ensures HasAnonymousOpen(batch, k) <==> AnonymousOpen(batch[0]) || HasAnonymousOpen(batch[1..], k - 1)
  {
    if i :| 0 <= i < k && AnonymousOpen(batch[i]) && i > 0 { assert batch[1..][i - 1] == batch[i]; }
    if i :| 0 <= i < k - 1 && AnonymousOpen(batch[1..][i]) { assert batch[i + 1] == batch[1..][i]; }
  }

  /** A batch whose first `k` messages are absorbed either continues at message `k` or, exactly when
      one of them is an anonymous open, stops there and changes nothing. */
  lemma {:induction false} AbsorbedPrefix(db: Db, batch: seq<Message>, clocks: seq<int>, k: nat)
    requires Valid(db) && |batch| == |clocks| && k <= |batch|
    requires forall i :: 0 <= i < k ==> Absorbed(db, batch[i])
    ensures !HasAnonymousOpen(batch, k) ==> IngestBatch(db, batch, clocks) == IngestBatch(db, batch[k..], clocks[k..])
    ensures HasAnonymousOpen(batch, k) ==> IngestBatch(db, batch, clocks) == (db, false)
    decreases k
  {
    if k == 0 {
      assert batch[0..] == batch && clocks[0..] == clocks;
    } else {
      AbsorbedIsNoOp(db, batch[0], clocks[0]);
      AbsorbedOutcome(db, batch[0]);
      OutcomeIgnoresClock(db, batch[0], clocks[0]);
      FirstOrLater(batch, k);
      AbsorbedPrefix(db, batch[1..], clocks[1..], k - 1);
      assert batch[1..][k - 1..] == batch[k..] && clocks[1..][k - 1..] == clocks[k..];
    }
  }

  /** Positions of a trace that is made of three parts. */
  lemma MiddlePart<E>(before: seq<E>, all: seq<E>, k: nat, between: seq<E>, i: nat)
    requires i < k <= |all|
    ensures var trace := before + all[..k] + between;
            |before| + i < |trace| && trace[..|before| + i] == before + all[..i] && trace[|before| + i] == all[i]
  {
    assert (before + all[..k] + between)[..|before| + i] == before + all[..i];
  }

  lemma AppliedInBatch(before: seq<Step>, batch: seq<Message>, clocks: seq<int>, k: nat, between: seq<Step>, i: nat)
    requires |batch| == |clocks| && i < k <= |batch|
    requires OutcomeOf(Run(Run(EMPTY, before), Deliveries(batch, clocks)[..i]), batch[i]) == Handled
    ensures HappensAt(Take, Applied, EMPTY, before + Deliveries(batch, clocks)[..k] + between, |before| + i)
  {
    var all := Deliveries(batch, clocks);
    MiddlePart(before, all, k, between, i);
    RunConcat(Take, EMPTY, before, all[..i]);
  }

  /** What the first `k` messages of a batch have done is absorbed ever after. */
  lemma HandledStaysAbsorbed(
      before: seq<Step>, batch: seq<Message>, clocks: seq<int>, k: nat, between: seq<Step>, i: nat)
    requires |batch| == |clocks| && i < k <= |batch|
    requires OutcomeOf(Run(Run(EMPTY, before), Deliveries(batch, clocks)[..i]), batch[i]) == Handled
    ensures Absorbed(Run(EMPTY, before + Deliveries(batch, clocks)[..k] + between), batch[i])
  {
    AppliedInBatch(before, batch, clocks, k, between, i);
    MiddlePart(before, Deliveries(batch, clocks), k, between, i);
    AppliedStaysAbsorbed(before + Deliveries(batch, clocks)[..k] + between, |before| + i);
  }

  /** A batch handled up to message `k` and, after any further steps, polled again from its start:
      it ends as if resumed at message `k`, unless one of the messages before is an anonymous open;
      then it stops there again, and changes nothing, however often it is polled. */
  lemma RetriedBatchResumes(
      before: seq<Step>, batch: seq<Message>, clocks: seq<int>, between: seq<Step>, again: seq<int>)
    returns (k: nat)
    requires |batch| == |clocks| == |again|
    ensures k <= |batch|
    ensures IngestBatch(Run(EMPTY, before), batch, clocks) ==
      (Run(Run(EMPTY, before), Deliveries(batch, clocks)[..k]), k == |batch|)
    ensures var db := Run(IngestBatch(Run(EMPTY, before), batch, clocks).0, between);
            && (!HasAnonymousOpen(batch, k) ==>
                 IngestBatch(db, batch, again) == IngestBatch(db, batch[k..], again[k..]))
            && (HasAnonymousOpen(batch, k) ==> IngestBatch(db, batch, again) == (db, false))
  {
    k := BatchIsPrefix(Run(EMPTY, before), batch, clocks);
    var trace := before + Deliveries(batch, clocks)[..k] + between;
    RunConcat(Take, EMPTY, before, Deliveries(batch, clocks)[..k]);
    RunConcat(Take, EMPTY, before + Deliveries(batch, clocks)[..k], between);
    forall i: nat | i < k ensures Absorbed(Run(EMPTY, trace), batch[i]) {
      HandledStaysAbsorbed(before, batch, clocks, k, between, i);
    }
    EveryRunIsValid(trace);
    AbsorbedPrefix(Run(EMPTY, trace), batch, again, k);
  }

  ghost function EntryOf(id: string): Message {
    Message(Id(id), "entry", Some(1), StateBody("node_entered", "node-1", "", ""))
  }

  lemma OpensAnonymously(db: Db, id: string)
    requires id !in db.calls && db.events.Keys !! {(id, "open")}
    ensures var after := Ingest(db, OpenOf(id), 0);
            && after.1 == Handled && after.0.calls.Keys == db.calls.Keys + {id}
            && after.0.events.Keys == db.events.Keys + {(id, "open")}
  {
    assert forall c :: !OnChannel(db, c, "") || OpenOf(id).body.channelId == "";
  }

  lemma BatchOfTwo(db: Db, x: Message, y: Message)
    ensures Ingest(db, x, 0).1 != Handled ==> IngestBatch(db, [x, y], [0, 0]) == (Ingest(db, x, 0).0, false)
    ensures Ingest(db, x, 0).1 == Handled ==>
      IngestBatch(db, [x, y], [0, 0]) == IngestBatch(Ingest(db, x, 0).0, [y], [0])
    ensures IngestBatch(db, [y], [0]) == (Ingest(db, y, 0).0, Ingest(db, y, 0).1 == Handled)
  {
    assert [x, y][1..] == [y] && [0, 0][1..] == [0] && [y][1..] == [] && [0][1..] == [];
  }

  lemma ReopenFails(db: Db, id: string)
    requires id in db.calls
    ensures Ingest(db, OpenOf(id), 0) == (db, Failure)
  {
  }

  lemma EntryLands(db: Db, id: string)
    ensures id !in db.calls ==> Ingest(db, EntryOf(id), 0) == (db, Waiting)
    ensures id in db.calls && (id, "entry") !in db.events ==>
      Ingest(db, EntryOf(id), 0).1 == Handled && (id, "entry") in Ingest(db, EntryOf(id), 0).0.events
  {
  }

  lemma FirstPoll(a: string, b: string)
    requires a != b
    ensures var db := Ingest(EMPTY, OpenOf(a), 0).0;
            && IngestBatch(EMPTY, [OpenOf(a), EntryOf(b)], [0, 0]) == (db, false)
            && db.calls.Keys == {a} && db.events.Keys == {(a, "open")}
  {
    var db := Ingest(EMPTY, OpenOf(a), 0).0;
    OpensAnonymously(EMPTY, a);
    BatchOfTwo(EMPTY, OpenOf(a), EntryOf(b));
    BatchOfTwo(db, OpenOf(a), EntryOf(b));
    EntryLands(db, b);
  }

  lemma SecondPoll(db: Db, a: string, b: string)
    requires a in db.calls && b in db.calls && (b, "entry") !in db.events
    ensures IngestBatch(db, [OpenOf(a), EntryOf(b)], [0, 0]) == (db, false)
    ensures IngestBatch(db, [EntryOf(b)], [0]).1 && IngestBatch(db, [EntryOf(b)], [0]).0 != db
  {
    ReopenFails(db, a);
    EntryLands(db, b);
    BatchOfTwo(db, OpenOf(a), EntryOf(b));
  }

  /** The open of one call and an event of another whose open comes later: the batch waits, and
      once the missing open has landed it fails at its first message for good, while the message it
      waited for could be handled. */
  lemma RetriedBatchCanStick(a: string, b: string)
    requires a != b
    ensures var batch := [OpenOf(a), EntryOf(b)];
            var (waiting, handled) := IngestBatch(EMPTY, batch, [0, 0]);
            var ready := Ingest(waiting, OpenOf(b), 0).0;
            && !handled && waiting != EMPTY
            && IngestBatch(ready, batch, [0, 0]) == (ready, false)
            && IngestBatch(ready, [EntryOf(b)], [0]).1 && IngestBatch(ready, [EntryOf(b)], [0]).0 != ready
  {
    var waiting := Ingest(EMPTY, OpenOf(a), 0).0;
    FirstPoll(a, b);
    OpensAnonymously(waiting, b);
    SecondPoll(Ingest(waiting, OpenOf(b), 0).0, a, b);
  }
}
