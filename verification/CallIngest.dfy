/** The call ingest consumer and the operator's disposition update: one message or request is
    one transaction over the call tables and the outbox. */
module CallIngest {
  import opened Prelude
  import opened CallPolicies

  // ----- messages -----

  /** `callId` on the wire: absent, not a UUID, or a UUID. */
  datatype WireId = NoId | BadId | Id(id: string)

  /** The columns an `opened` message stamps on its call, beyond the channel. */
  datatype Stamp = Stamp(
    reference: string, direction: string, agentAlias: string, attemptNumber: int, links: map<string, string>)

  /** The topic decides which body a message has.  `stamp` is `None` when one of the identifiers
      of an `opened` message is not a UUID; an absent string is empty. */
  datatype Body =
    | OpenedBody(channelId: string, stamp: Option<Stamp>)
    | StateBody(eventType: string, nodeId: string, nodeType: string, nodeName: string)
    | TranscriptBody(eventType: string, isFinal: bool, speaker: string, text: string, nodeId: string)
    | FieldBody(eventType: string, field: string, value: FieldValue)
    | ClosedBody(eventType: string, proposedDisposition: string, failed: bool, durationSeconds: Option<int>,
                 talkTimeSeconds: Option<int>, performance: map<string, string>)

  datatype Message = Poison | Message(callId: WireId, externalEventId: string, eventTs: Option<int>, body: Body)

  /** `Handled` lets the offset advance; the other two leave the message to be redelivered. */
  datatype Outcome = Handled | Waiting | Failure

  // ----- tables -----

  datatype CallRow = CallRow(
    channelId: Option<string>,
    stamp: Stamp,
    status: CallStatus,
    qualificationStatus: QualificationStatus,
    disqualificationReason: Option<string>,
    disposition: Option<string>,
    vicidialStatus: Option<string>,
    startedAt: int,
    endedAt: Option<int>,
    durationSeconds: Option<int>,
    talkTimeSeconds: Option<int>)

  datatype EventRow = EventRow(eventType: string, eventTs: int)
  datatype NodeVisit = NodeVisit(nodeId: string, nodeType: string, nodeName: string, enteredAt: int)
  datatype Turn = Turn(speaker: string, text: string, nodeId: string)
  datatype Row<T> = Row(callId: string, seqNo: nat, content: T)
  datatype FieldRow = FieldRow(callId: string, field: string, value: FieldValue, capturedAt: int)

  datatype OutboxEvent =
    | CallCompleted(callId: string, reference: string, status: CallStatus, eventTs: int, disposition: Option<string>,
                    durationSeconds: Option<int>, talkTimeSeconds: Option<int>,
                    qualificationStatus: QualificationStatus, performance: map<string, string>)
    | DispositionChanged(callId: string, previous: Option<string>, newDisposition: string)
    | QualificationChanged(callId: string, newStatus: QualificationStatus, reason: Option<string>)

  datatype Db = Db(
    calls: map<string, CallRow>,
    events: map<(string, string), EventRow>,
    nodePaths: seq<Row<NodeVisit>>,
    transcripts: seq<Row<Turn>>,
    fields: seq<FieldRow>,
    performance: map<string, map<string, string>>,
    outbox: seq<OutboxEvent>)

  const EMPTY := Db(map[], map[], [], [], [], map[], [])

  // ----- what each handler does to the tables -----

  function MaxSeq<T>(rows: seq<Row<T>>, id: string): nat {
    if rows == [] then 0 else
    var m, last := MaxSeq(rows[..|rows| - 1], id), rows[|rows| - 1];
    if last.callId == id && last.seqNo > m then last.seqNo else m
  }

  function Evidence(fields: seq<FieldRow>, id: string): map<string, FieldValue> {
    if fields == [] then map[] else
    var e, last := Evidence(fields[..|fields| - 1], id), fields[|fields| - 1];
    if last.callId == id then e[last.field := last.value] else e
  }

  ghost predicate OnChannel(db: Db, id: string, channel: string) {
    id in db.calls && db.calls[id].channelId == Some(channel)
  }

  function EventTypeOf(body: Body): string {
    match body
    case OpenedBody(_, _) => "call.opened"
    case StateBody(t, _, _, _) => if t != "" then t else "call.event"
    case TranscriptBody(t, _, _, _, _) => if t != "" then t else "call.transcript"
    case FieldBody(t, _, _) => if t != "" then t else "call.field"
    case ClosedBody(t, _, _, _, _, _) => if t != "" then t else "call.closed"
  }

  function Record(db: Db, id: string, ext: string, eventType: string, ts: int): Db {
    if (id, ext) in db.events then db else db.(events := db.events[(id, ext) := EventRow(eventType, ts)])
  }

  function OpenedCall(id: string, channel: string, s: Stamp, ts: int): CallRow {
    CallRow(
      if channel != "" then Some(channel) else None,
      Stamp(if s.reference != "" then s.reference else id,
            if s.direction != "" then s.direction else "outbound",
            if s.agentAlias != "" then s.agentAlias else "Adriana",
            if s.attemptNumber != 0 then s.attemptNumber else 1,
            s.links),
      InProgress, Pending, None, None, None, ts, None, None, None)
  }

  /** A channel that is already open is reused; a second row under the same id violates the key. */
  ghost function Open(db: Db, id: string, ext: string, body: Body, ts: int): (Db, Outcome)
    requires body.OpenedBody?
  {
    if body.channelId != "" && exists c :: OnChannel(db, c, body.channelId) then
      var c :| OnChannel(db, c, body.channelId);
      if exists d :: d != c && OnChannel(db, d, body.channelId) then (db, Failure)
      else (Record(db, c, ext, "call.opened", ts), Handled)
    else if body.stamp.None? || id in db.calls then (db, Failure)
    else
      var added := db.(calls := db.calls[id := OpenedCall(id, body.channelId, body.stamp.value, ts)]);
      (Record(added, id, ext, "call.opened", ts), Handled)
  }

  function EnterNode(db: Db, id: string, body: Body, ts: int): Db
    requires body.StateBody?
  {
    if body.eventType != "node_entered" then db else
    var visit := NodeVisit(if body.nodeId != "" then body.nodeId else "unknown", body.nodeType, body.nodeName, ts);
    db.(nodePaths := db.nodePaths + [Row(id, MaxSeq(db.nodePaths, id) + 1, visit)])
  }

  function Transcribe(db: Db, id: string, body: Body): Db
    requires body.TranscriptBody?
  {
    if !body.isFinal then db else
    var turn := Turn(if body.speaker != "" then body.speaker else "unknown", body.text, body.nodeId);
    db.(transcripts := db.transcripts + [Row(id, MaxSeq(db.transcripts, id) + 1, turn)])
  }

  function Reevaluate(db: Db, id: string): Db
    requires id in db.calls
  {
    var (status, reason) := EvaluateQualification(Evidence(db.fields, id));
    db.(calls := db.calls[id := db.calls[id].(qualificationStatus := status, disqualificationReason := reason)])
  }

  function Capture(db: Db, id: string, body: Body, ts: int): Db
    requires body.FieldBody? && id in db.calls
  {
    if body.field == "" then db
    else Reevaluate(db.(fields := db.fields + [FieldRow(id, body.field, body.value, ts)]), id)
  }

  function ClosedCall(call: CallRow, body: Body, ts: int): CallRow
    requires body.ClosedBody?
  {
    var closed := call.(
      status := if body.failed then Failed else Completed,
      endedAt := if call.endedAt.None? || ts > call.endedAt.value then Some(ts) else call.endedAt,
      durationSeconds := if body.durationSeconds.Some? then body.durationSeconds else call.durationSeconds,
      talkTimeSeconds := if body.talkTimeSeconds.Some? then body.talkTimeSeconds else call.talkTimeSeconds);
    var proposed := body.proposedDisposition;
    if proposed == "" || Some(proposed) == call.disposition then closed else
    var implied, vici := QualificationResult(proposed), ToVicidialStatus(proposed);
    closed.(
      disposition := Some(proposed),
      qualificationStatus := if implied.Some? then implied.value.0 else closed.qualificationStatus,
      disqualificationReason := if implied.Some? then implied.value.1 else closed.disqualificationReason,
      vicidialStatus := if vici.Some? then vici else closed.vicidialStatus)
  }

  function CompletedEvent(id: string, call: CallRow, ts: int, performance: map<string, string>): OutboxEvent {
    CallCompleted(id, call.stamp.reference, call.status, ts, call.disposition, call.durationSeconds,
                  call.talkTimeSeconds, call.qualificationStatus, performance)
  }

  function UpsertPerformance(perf: map<string, map<string, string>>, id: string, values: map<string, string>)
    : map<string, map<string, string>>
  {
    if values == map[] then perf else perf[id := (if id in perf then perf[id] else map[]) + values]
  }

  function Close(db: Db, id: string, body: Body, ts: int): Db
    requires body.ClosedBody? && id in db.calls
  {
    if Terminal(db.calls[id].status) then db else
    var call := ClosedCall(db.calls[id], body, ts);
    db.(calls := db.calls[id := call],
        performance := UpsertPerformance(db.performance, id, body.performance),
        outbox := db.outbox + [CompletedEvent(id, call, ts, body.performance)])
  }

  function Apply(db: Db, id: string, body: Body, ts: int): Db
    requires id in db.calls && !body.OpenedBody?
  {
    match body
    case StateBody(_, _, _, _) => EnterNode(db, id, body, ts)
    case TranscriptBody(_, _, _, _, _) => Transcribe(db, id, body)
    case FieldBody(_, _, _) => Capture(db, id, body, ts)
    case ClosedBody(_, _, _, _, _, _) => Close(db, id, body, ts)
  }

  /** One message as one transaction: applied, waiting for its open, or failed without a change.
      `now` is the clock, read when the message carries no time. */
  ghost function Ingest(db: Db, m: Message, now: int): (Db, Outcome) {
    if m.Poison? then (db, Handled)
    else if m.callId.BadId? then (db, Failure)
    else if m.callId.NoId? || m.externalEventId == "" then (db, Handled)
    else
      var id, ext, ts := m.callId.id, m.externalEventId, m.eventTs.GetOr(now);
      if m.body.OpenedBody? then Open(db, id, ext, m.body, ts)
      else if id !in db.calls then (db, Waiting)
      else if (id, ext) in db.events then (db, Handled)
      else (Apply(Record(db, id, ext, EventTypeOf(m.body), ts), id, m.body, ts), Handled)
  }

  /** The call after the operator sets a disposition; a reason is written only if one is implied. */
  function DisposedCall(call: CallRow, disposition: string): CallRow {
    var implied, vici := QualificationResult(disposition), ToVicidialStatus(disposition);
    call.(
      disposition := Some(disposition),
      qualificationStatus := if implied.Some? then implied.value.0 else call.qualificationStatus,
      disqualificationReason :=
        if implied.Some? && implied.value.1.Some? then implied.value.1 else call.disqualificationReason,
      vicidialStatus := if vici.Some? then vici else call.vicidialStatus)
  }

  function DispositionEvents(id: string, call: CallRow, disposition: string): (events: seq<OutboxEvent>)
    ensures forall e :: e in events ==> e.callId == id && !e.CallCompleted?
  {
    var implied := QualificationResult(disposition);
    [DispositionChanged(id, call.disposition, disposition)]
    + if implied.Some? && implied.value.0 != call.qualificationStatus
      then [QualificationChanged(id, implied.value.0, implied.value.1)] else []
  }

  /** `update_disposition`: refused for an unknown or closed call. */
  function Dispose(db: Db, id: string, disposition: string): (Db, bool) {
    if id !in db.calls || !CanUpdateDisposition(db.calls[id].status) then (db, false) else
    (db.(calls := db.calls[id := DisposedCall(db.calls[id], disposition)],
         outbox := db.outbox + DispositionEvents(id, db.calls[id], disposition)), true)
  }

  /** A batch is handled message by message up to the first one that is not. */
  ghost function IngestBatch(db: Db, batch: seq<Message>, clocks: seq<int>): (Db, bool)
    requires |batch| == |clocks|
    decreases |batch|
  {
    if batch == [] then (db, true) else
    var (db', outcome) := Ingest(db, batch[0], clocks[0]);
    if outcome != Handled then (db', false) else IngestBatch(db', batch[1..], clocks[1..])
  }

  // ----- the handlers -----

  class CallStore {
    var calls: map<string, CallRow>
    var events: map<(string, string), EventRow>
    var nodePaths: seq<Row<NodeVisit>>
    var transcripts: seq<Row<Turn>>
    var fields: seq<FieldRow>
    var performance: map<string, map<string, string>>
    var outbox: seq<OutboxEvent>

    constructor ()
      ensures State() == EMPTY
    {
      calls, events, nodePaths, transcripts, fields, performance, outbox := map[], map[], [], [], [], map[], [];
    }

    ghost function State(): Db
      reads this
    {
      Db(calls, events, nodePaths, transcripts, fields, performance, outbox)
    }

    method HandleTopic(m: Message, now: int) returns (outcome: Outcome)
      modifies this
      ensures (State(), outcome) == Ingest(old(State()), m, now)
    {
      if m.Poison? { return Handled; }
      if m.callId.BadId? { return Failure; }
      if m.callId.NoId? || m.externalEventId == "" { return Handled; }
      var id, ts := m.callId.id, m.eventTs.GetOr(now);
      if m.body.OpenedBody? {
        outcome := HandleOpened(id, m.externalEventId, m.body, ts);
        return;
      }
      if id !in calls { return Waiting; }
      var recorded := RecordEvent(id, m.externalEventId, EventTypeOf(m.body), ts);
      if !recorded { return Handled; }
      match m.body {
        case StateBody(_, _, _, _) => HandleStateEvent(id, m.body, ts);
        case TranscriptBody(_, _, _, _, _) => HandleTranscript(id, m.body);
        case FieldBody(_, _, _) => HandleField(id, m.body, ts);
        case ClosedBody(_, _, _, _, _, _) => HandleClosed(id, m.body, ts);
      }
      outcome := Handled;
    }

    method RecordEvent(id: string, ext: string, eventType: string, ts: int) returns (recorded: bool)
      modifies this
      ensures State() == Record(old(State()), id, ext, eventType, ts)
      ensures recorded <==> (id, ext) !in old(events)
    {
      if (id, ext) in events { return false; }
      events := events[(id, ext) := EventRow(eventType, ts)];
      recorded := true;
    }

    method HandleOpened(id: string, ext: string, body: Body, ts: int) returns (outcome: Outcome)
      requires body.OpenedBody?
      modifies this
      ensures (State(), outcome) == Open(old(State()), id, ext, body, ts)
    {
      if body.channelId != "" {
        if c :| c in calls && calls[c].channelId == Some(body.channelId) {
          assert OnChannel(State(), c, body.channelId);
          if d :| d in calls && d != c && calls[d].channelId == Some(body.channelId) {
            assert OnChannel(State(), d, body.channelId);
            return Failure;
          }
          assert forall d :: OnChannel(State(), d, body.channelId) ==> d == c;
          var _ := RecordEvent(c, ext, "call.opened", ts);
          return Handled;
        }
        assert forall c :: !OnChannel(State(), c, body.channelId);
      }
      if body.stamp.None? || id in calls { return Failure; }
      calls := calls[id := OpenedCall(id, body.channelId, body.stamp.value, ts)];
      var _ := RecordEvent(id, ext, "call.opened", ts);
      outcome := Handled;
    }

    method NextSeq<T>(rows: seq<Row<T>>, id: string) returns (next: nat)
      ensures next == MaxSeq(rows, id) + 1
    {
      var current := 0;
      for i := 0 to |rows|
        invariant current == MaxSeq(rows[..i], id)
      {
        assert rows[..i + 1][..i] == rows[..i];
        if rows[i].callId == id && rows[i].seqNo > current { current := rows[i].seqNo; }
      }
      assert rows[..|rows|] == rows;
      next := current + 1;
    }

    method HandleStateEvent(id: string, body: Body, ts: int)
      requires body.StateBody?
      modifies this
      ensures State() == EnterNode(old(State()), id, body, ts)
    {
      if body.eventType != "node_entered" { return; }
      var next := NextSeq(nodePaths, id);
      var nodeId := if body.nodeId != "" then body.nodeId else "unknown";
      nodePaths := nodePaths + [Row(id, next, NodeVisit(nodeId, body.nodeType, body.nodeName, ts))];
    }

    method HandleTranscript(id: string, body: Body)
      requires body.TranscriptBody?
      modifies this
      ensures State() == Transcribe(old(State()), id, body)
    {
      if !body.isFinal { return; }
      var next := NextSeq(transcripts, id);
      var speaker := if body.speaker != "" then body.speaker else "unknown";
      transcripts := transcripts + [Row(id, next, Turn(speaker, body.text, body.nodeId))];
    }

    method HandleField(id: string, body: Body, ts: int)
      requires body.FieldBody? && id in calls
      modifies this
      ensures State() == Capture(old(State()), id, body, ts)
    {
      if body.field == "" { return; }
      fields := fields + [FieldRow(id, body.field, body.value, ts)];
      ReevaluateQualification(id);
    }

    method ReevaluateQualification(id: string)
      requires id in calls
      modifies this
      ensures State() == Reevaluate(old(State()), id)
    {
      var evidence: map<string, FieldValue> := map[];
      for i := 0 to |fields|
        invariant evidence == Evidence(fields[..i], id)
        invariant State() == old(State())
      {
        assert fields[..i + 1][..i] == fields[..i];
        if fields[i].callId == id { evidence := evidence[fields[i].field := fields[i].value]; }
      }
      assert fields[..|fields|] == fields;
      var (status, reason) := EvaluateQualification(evidence);
      var call := calls[id];
      if status == call.qualificationStatus && reason == call.disqualificationReason {
        assert calls[id := calls[id]] == calls;
        return;
      }
      calls := calls[id := call.(qualificationStatus := status, disqualificationReason := reason)];
    }

    /** The assignments to the call's columns, in the order the handler makes them. */
    method CloseColumns(row: CallRow, body: Body, ts: int) returns (call: CallRow)
      requires body.ClosedBody?
      ensures call == ClosedCall(row, body, ts)
    {
      var proposed := body.proposedDisposition;
      call := row.(status := if body.failed then Failed else Completed);
      if call.endedAt.None? || ts > call.endedAt.value { call := call.(endedAt := Some(ts)); }
      if body.durationSeconds.Some? { call := call.(durationSeconds := body.durationSeconds); }
      if body.talkTimeSeconds.Some? { call := call.(talkTimeSeconds := body.talkTimeSeconds); }
      if proposed != "" && Some(proposed) != call.disposition {
        call := call.(disposition := Some(proposed));
        var implied := QualificationResult(proposed);
        if implied.Some? {
          call := call.(qualificationStatus := implied.value.0, disqualificationReason := implied.value.1);
        }
        var vici := ToVicidialStatus(proposed);
        if vici.Some? { call := call.(vicidialStatus := vici); }
      }
    }

    method HandleClosed(id: string, body: Body, ts: int)
      requires body.ClosedBody? && id in calls
      modifies this
      ensures State() == Close(old(State()), id, body, ts)
    {
      if Terminal(calls[id].status) { return; }
      var call := CloseColumns(calls[id], body, ts);
      calls := calls[id := call];
      if body.performance != map[] {
        performance := performance[id := (if id in performance then performance[id] else map[]) + body.performance];
      }
      outbox := outbox + [CompletedEvent(id, call, ts, body.performance)];
    }

    method UpdateDisposition(id: string, disposition: string) returns (ok: bool)
      modifies this
      ensures (State(), ok) == Dispose(old(State()), id, disposition)
    {
      if id !in calls || !CanUpdateDisposition(calls[id].status) { return false; }
      var call := calls[id];
      var oldDisposition, oldStatus := call.disposition, call.qualificationStatus;
      call := call.(disposition := Some(disposition));
      var implied := QualificationResult(disposition);
      if implied.Some? {
        call := call.(qualificationStatus := implied.value.0);
        if implied.value.1.Some? { call := call.(disqualificationReason := implied.value.1); }
      }
      var vici := ToVicidialStatus(disposition);
      if vici.Some? { call := call.(vicidialStatus := vici); }
      calls := calls[id := call];
      ghost var before := outbox;
      outbox := outbox + [DispositionChanged(id, oldDisposition, disposition)];
      if implied.Some? && implied.value.0 != oldStatus {
        outbox := outbox + [QualificationChanged(id, implied.value.0, implied.value.1)];
      }
      assert outbox == before + DispositionEvents(id, old(calls)[id], disposition);
      ok := true;
    }

    /** One polled batch; the offsets are committed only when every message was handled. */
    method ProcessBatch(batch: seq<Message>, clocks: seq<int>) returns (batchOk: bool)
      requires |batch| == |clocks|
      modifies this
      ensures (State(), batchOk) == IngestBatch(old(State()), batch, clocks)
    {
      for k := 0 to |batch|
        invariant IngestBatch(State(), batch[k..], clocks[k..]) == IngestBatch(old(State()), batch, clocks)
      {
        assert batch[k..][1..] == batch[k + 1..] && clocks[k..][1..] == clocks[k + 1..];
        var outcome := HandleTopic(batch[k], clocks[k]);
        if outcome != Handled { return false; }
      }
      batchOk := true;
    }
  }
}
