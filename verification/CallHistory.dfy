/** The history of a call: its tables are what the messages that landed on it say, in the order they
    landed, it was opened by one message and its outcome is that of the one message that closed it. */
module CallHistory {
  import opened Prelude
  import opened CallPolicies
  import opened CallIngest
  import opened CallIngestTheorems
  import opened CallCommutation
  import opened CallIsolation
  import opened Transitions

  // ----- landing -----

  /** The step delivers a message that is news for call `id`, other than an open, and commits. */
  ghost predicate LandsOn(db: Db, s: Step, id: string) {
    && s.Deliver? && !s.luck.LostBeforeCommit? && s.message.Message? && s.message.callId == Id(id)
    && s.message.externalEventId != "" && !s.message.body.OpenedBody?
    && id in db.calls && (id, s.message.externalEventId) !in db.events
  }

  /** The time of a delivered message: its own, or else the clock's. */
  ghost function TimeOf(s: Step): int
    requires s.Deliver? && s.message.Message?
  {
    if s.message.eventTs.Some? then s.message.eventTs.value else s.now
  }

  ghost function Recorded(db: Db, s: Step, id: string): Db
    requires s.Deliver? && s.message.Message?
  {
    Record(db, id, s.message.externalEventId, EventTypeOf(s.message.body), TimeOf(s))
  }

  lemma TakeLanding(db: Db, s: Step, id: string)
    requires LandsOn(db, s, id)
    ensures Take(db, s) == Apply(Recorded(db, s, id), id, s.message.body, TimeOf(s))
  {
  }

  /** A step that neither lands nor opens nor disposes changes nothing. */
  lemma OtherSteps(db: Db, s: Step, id: string)
    requires !LandsOn(db, s, id) && s.Deliver? && s.message.Message? && s.message.callId == Id(id)
    requires !s.message.body.OpenedBody?
    ensures Take(db, s) == db
  {
  }

  // ----- the conversation -----

  /** The node visits a landed message adds. */
  ghost function VisitsIn(body: Body, ts: int): seq<NodeVisit> {
    if body.StateBody? && body.eventType == "node_entered" then
      [NodeVisit(if body.nodeId == "" then "unknown" else body.nodeId, body.nodeType, body.nodeName, ts)]
    else []
  }

  /** The turns a landed message adds: those of final transcripts. */
  ghost function TurnsIn(body: Body): seq<Turn> {
    if body.TranscriptBody? && body.isFinal then
      [Turn(if body.speaker == "" then "unknown" else body.speaker, body.text, body.nodeId)]
    else []
  }

  /** The captured fields a landed message adds. */
  ghost function CapturesIn(id: string, body: Body, ts: int): seq<FieldRow> {
    if body.FieldBody? && body.field != "" then [FieldRow(id, body.field, body.value, ts)] else []
  }

  ghost function VisitsOf(trace: seq<Step>, id: string): seq<NodeVisit> {
    if trace == [] then [] else
    var n := |trace| - 1;
    VisitsOf(trace[..n], id)
    + if LandsOn(Run(EMPTY, trace[..n]), trace[n], id) then VisitsIn(trace[n].message.body, TimeOf(trace[n])) else []
  }

  ghost function TurnsOf(trace: seq<Step>, id: string): seq<Turn> {
    if trace == [] then [] else
    var n := |trace| - 1;
    TurnsOf(trace[..n], id)
    + if LandsOn(Run(EMPTY, trace[..n]), trace[n], id) then TurnsIn(trace[n].message.body) else []
  }

  ghost function CapturesOf(trace: seq<Step>, id: string): seq<FieldRow> {
    if trace == [] then [] else
    var n := |trace| - 1;
    CapturesOf(trace[..n], id)
    + (if LandsOn(Run(EMPTY, trace[..n]), trace[n], id)
       then CapturesIn(id, trace[n].message.body, TimeOf(trace[n])) else [])
  }

  ghost function ContentsOf<T>(rows: seq<Row<T>>, id: string): seq<T> {
    seq(|RowsOf(rows, id)|, k requires 0 <= k < |RowsOf(rows, id)| => RowsOf(rows, id)[k].content)
  }

  function FieldsOf(rows: seq<FieldRow>, id: string): seq<FieldRow> {
    if rows == [] then [] else
    var front, last := FieldsOf(rows[..|rows| - 1], id), rows[|rows| - 1];
    if last.callId == id then front + [last] else front
  }

  /** What a step adds to the conversation tables of a call. */
  ghost predicate Adds(
      before: Db, after: Db, id: string, visits: seq<NodeVisit>, turns: seq<Turn>, captures: seq<FieldRow>) {
    && ContentsOf(after.nodePaths, id) == ContentsOf(before.nodePaths, id) + visits
    && ContentsOf(after.transcripts, id) == ContentsOf(before.transcripts, id) + turns
    && FieldsOf(after.fields, id) == FieldsOf(before.fields, id) + captures
  }

  lemma RowAppended<T>(rows: seq<Row<T>>, row: Row<T>, id: string)
    ensures ContentsOf(rows + [row], id) == ContentsOf(rows, id) + if row.callId == id then [row.content] else []
  {
    assert (rows + [row])[..|rows|] == rows;
  }

  lemma FieldAppended(rows: seq<FieldRow>, row: FieldRow, id: string)
    ensures FieldsOf(rows + [row], id) == FieldsOf(rows, id) + if row.callId == id then [row] else []
  {
    assert (rows + [row])[..|rows|] == rows;
  }

  lemma ApplyAdds(db: Db, c: string, body: Body, ts: int, id: string)
    requires c in db.calls && !body.OpenedBody?
    ensures Adds(db, Apply(db, c, body, ts), id,
                 if c == id then VisitsIn(body, ts) else [], if c == id then TurnsIn(body) else [],
                 if c == id then CapturesIn(id, body, ts) else [])
  {
    var after := Apply(db, c, body, ts);
    match body
    case StateBody(_, _, _, _) => VisitAdds(db, c, body, ts, id);
    case TranscriptBody(_, _, _, _, _) => TurnAdds(db, c, body, id);
    case FieldBody(_, _, _) =>
      if body.field != "" { FieldAppended(db.fields, FieldRow(c, body.field, body.value, ts), id); }
    case ClosedBody(_, _, _, _, _, _) =>
  }

  lemma VisitAdds(db: Db, c: string, body: Body, ts: int, id: string)
    requires body.StateBody?
    ensures ContentsOf(EnterNode(db, c, body, ts).nodePaths, id) ==
      ContentsOf(db.nodePaths, id) + if c == id then VisitsIn(body, ts) else []
  {
    var after := EnterNode(db, c, body, ts);
    if |after.nodePaths| > |db.nodePaths| { RowAppended(db.nodePaths, after.nodePaths[|db.nodePaths|], id); }
  }

  lemma TurnAdds(db: Db, c: string, body: Body, id: string)
    requires body.TranscriptBody?
    ensures ContentsOf(Transcribe(db, c, body).transcripts, id) ==
      ContentsOf(db.transcripts, id) + if c == id then TurnsIn(body) else []
  {
    var after := Transcribe(db, c, body);
    if |after.transcripts| > |db.transcripts| { RowAppended(db.transcripts, after.transcripts[|db.transcripts|], id); }
  }

  /** A step that is no landing on any call leaves the conversation tables alone. */
  lemma QuietStep(db: Db, s: Step)
    requires forall c :: !LandsOn(db, s, c)
    ensures var after := Take(db, s);
            after.nodePaths == db.nodePaths && after.transcripts == db.transcripts && after.fields == db.fields
  {
    if s.Deliver? && !s.luck.LostBeforeCommit? && Identified(s.message) {
      var c := s.message.callId.id;
      assert !LandsOn(db, s, c);
      if s.message.body.OpenedBody? {
        OpenKeepsTalk(db, c, s.message.externalEventId, s.message.body, TimeOf(s));
      } else {
        OtherSteps(db, s, c);
      }
    }
  }

  lemma OpenKeepsTalk(db: Db, id: string, ext: string, body: Body, ts: int)
    requires body.OpenedBody?
    ensures var after := Open(db, id, ext, body, ts).0;
            after.nodePaths == db.nodePaths && after.transcripts == db.transcripts && after.fields == db.fields
            && after.outbox == db.outbox && after.performance == db.performance
  {
  }

  lemma StepAdds(db: Db, s: Step, id: string)
    ensures var lands := LandsOn(db, s, id);
            Adds(db, Take(db, s), id,
                 if lands then VisitsIn(s.message.body, TimeOf(s)) else [],
                 if lands then TurnsIn(s.message.body) else [],
                 if lands then CapturesIn(id, s.message.body, TimeOf(s)) else [])
  {
    if c :| LandsOn(db, s, c) {
      TakeLanding(db, s, c);
      ApplyAdds(Recorded(db, s, c), c, s.message.body, TimeOf(s), id);
    } else {
      QuietStep(db, s);
    }
  }

  /** After every run, whatever was lost or delivered again, the node path, the transcript and the
      captured fields of a call are those of the messages that landed on it, in that order. */
  lemma {:induction false} HistoryDecides(trace: seq<Step>, id: string)
    ensures var db := Run(EMPTY, trace);
            && ContentsOf(db.nodePaths, id) == VisitsOf(trace, id)
            && ContentsOf(db.transcripts, id) == TurnsOf(trace, id)
            && FieldsOf(db.fields, id) == CapturesOf(trace, id)
  {
    if trace != [] {
      var n := |trace| - 1;
      HistoryDecides(trace[..n], id);
      StepAdds(Run(EMPTY, trace[..n]), trace[n], id);
    }
  }

  /** What the evidence of a call says of a field is what was captured for it last. */
  lemma {:induction false} EvidenceIsLast(rows: seq<FieldRow>, id: string, k: nat)
    requires k < |FieldsOf(rows, id)|
    requires forall j :: k < j < |FieldsOf(rows, id)| ==> FieldsOf(rows, id)[j].field != FieldsOf(rows, id)[k].field
    ensures var row := FieldsOf(rows, id)[k];
            row.field in Evidence(rows, id) && Evidence(rows, id)[row.field] == row.value
  {
    var n := |rows| - 1;
    var front := FieldsOf(rows[..n], id);
    if k < |front| {
      forall j | k < j < |front| ensures front[j].field != front[k].field { assert FieldsOf(rows, id)[j] == front[j]; }
      EvidenceIsLast(rows[..n], id, k);
      if rows[n].callId == id { assert FieldsOf(rows, id)[|front|] == rows[n]; }
    }
  }

  lemma {:induction false} EvidenceWasCaptured(rows: seq<FieldRow>, id: string, field: string)
    requires field in Evidence(rows, id)
    ensures exists k :: 0 <= k < |FieldsOf(rows, id)| && FieldsOf(rows, id)[k].field == field
  {
    var n := |rows| - 1;
    var front := FieldsOf(rows[..n], id);
    if rows[n].callId == id && rows[n].field == field {
      assert FieldsOf(rows, id)[|front|].field == field;
    } else {
      EvidenceWasCaptured(rows[..n], id, field);
      var k :| 0 <= k < |front| && front[k].field == field;
      assert FieldsOf(rows, id)[k] == front[k];
    }
  }

  // ----- closing -----

  ghost predicate Over(status: CallStatus) {
    status == Transferred || status == Completed || status == Failed
  }

  /** What a `closed` message makes of the row of an open call. */
  ghost predicate ClosedAs(before: CallRow, after: CallRow, body: Body, ts: int)
    requires body.ClosedBody?
  {
    && after.status == (if body.failed then Failed else Completed)
    && after.endedAt.Some? && after.endedAt.value >= ts
    && (before.endedAt.Some? ==> after.endedAt.value >= before.endedAt.value)
    && (after.endedAt == Some(ts) || after.endedAt == before.endedAt)
    && (body.durationSeconds.Some? ==> after.durationSeconds == body.durationSeconds)
    && (body.durationSeconds.None? ==> after.durationSeconds == before.durationSeconds)
    && (body.talkTimeSeconds.Some? ==> after.talkTimeSeconds == body.talkTimeSeconds)
    && (body.talkTimeSeconds.None? ==> after.talkTimeSeconds == before.talkTimeSeconds)
    && DisposedAs(before, after, body.proposedDisposition)
    && after.channelId == before.channelId && after.stamp == before.stamp && after.startedAt == before.startedAt
  }

  /** A new disposition stands in the row with what it implies; no disposition, or the one the row has,
      changes nothing. */
  ghost predicate DisposedAs(before: CallRow, after: CallRow, proposed: string) {
    var implied, code := QualificationResult(proposed), ToVicidialStatus(proposed);
    var isNew := proposed != "" && before.disposition != Some(proposed);
    && (proposed != "" ==> after.disposition == Some(proposed))
    && (proposed == "" ==> after.disposition == before.disposition)
    && (isNew && implied.Some? ==>
          after.qualificationStatus == implied.value.0 && after.disqualificationReason == implied.value.1)
    && (!isNew || implied.None? ==>
          after.qualificationStatus == before.qualificationStatus
          && after.disqualificationReason == before.disqualificationReason)
    && after.vicidialStatus == if isNew && code.Some? then code else before.vicidialStatus
  }

  /** The event announces exactly what stands in the row. */
  ghost predicate Announces(e: OutboxEvent, id: string, row: CallRow, ts: int, performance: map<string, string>) {
    && e.CallCompleted? && e.callId == id && e.reference == row.stamp.reference && e.status == row.status
    && e.eventTs == ts && e.disposition == row.disposition && e.durationSeconds == row.durationSeconds
    && e.talkTimeSeconds == row.talkTimeSeconds && e.qualificationStatus == row.qualificationStatus
    && e.performance == performance
  }

  /** The step closes an open call. */
  ghost predicate ClosesOn(db: Db, s: Step, id: string) {
    LandsOn(db, s, id) && s.message.body.ClosedBody? && !Over(db.calls[id].status)
  }

  /** The values of the message replace those of the same name in the performance of the call. */
  ghost predicate Merged(before: map<string, map<string, string>>, after: map<string, map<string, string>>,
                         id: string, values: map<string, string>) {
    && (forall c :: c != id ==> (c in after <==> c in before) && (c in before ==> after[c] == before[c]))
    && (id in after <==> id in before || values != map[])
    && (id in after ==> forall k ::
          && (k in values ==> k in after[id] && after[id][k] == values[k])
          && (k !in values ==>
                && (k in after[id] <==> id in before && k in before[id])
                && (k in after[id] ==> after[id][k] == before[id][k])))
  }

  /** Nothing but the named call's row has changed among the calls. */
  ghost predicate OnlyRow(before: Db, after: Db, id: string) {
    && after.calls.Keys == before.calls.Keys && id in before.calls
    && forall c :: c in before.calls && c != id ==> after.calls[c] == before.calls[c]
  }

  /** An open call is closed as the message says, and announced as its row then stands. */
  lemma CloseExactly(db: Db, s: Step, id: string)
    requires ClosesOn(db, s, id)
    ensures var after, body, ts := Take(db, s), s.message.body, TimeOf(s);
            && OnlyRow(db, after, id) && ClosedAs(db.calls[id], after.calls[id], body, ts)
            && |after.outbox| == |db.outbox| + 1 && after.outbox[..|db.outbox|] == db.outbox
            && Announces(after.outbox[|db.outbox|], id, after.calls[id], ts, body.performance)
            && Merged(db.performance, after.performance, id, body.performance)
  {
    TakeLanding(db, s, id);
    ClosedRow(db.calls[id], s.message.body, TimeOf(s));
    MergedPerformance(db.performance, id, s.message.body.performance);
  }

  lemma ClosedRow(row: CallRow, body: Body, ts: int)
    requires body.ClosedBody?
    ensures ClosedAs(row, ClosedCall(row, body, ts), body, ts)
  {
  }

  lemma MergedPerformance(perf: map<string, map<string, string>>, id: string, values: map<string, string>)
    ensures Merged(perf, UpsertPerformance(perf, id, values), id, values)
  {
  }

  /** A call that is over takes no other outcome: the message is recorded and nothing else changes. */
  lemma ClosedIsRecorded(db: Db, s: Step, id: string)
    requires LandsOn(db, s, id) && s.message.body.ClosedBody? && Over(db.calls[id].status)
    ensures Take(db, s) == db.(events := Take(db, s).events)
  {
    TakeLanding(db, s, id);
  }

  // ----- opening, capturing and disposing -----

  ghost function OrElse(s: string, other: string): string {
    if s == "" then other else s
  }

  /** The row of a call as its `opened` message says, with the defaults for what it leaves out. */
  ghost predicate OpenedAs(row: CallRow, id: string, body: Body, ts: int)
    requires body.OpenedBody? && body.stamp.Some?
  {
    var given := body.stamp.value;
    && (row.channelId == None <==> body.channelId == "")
    && (body.channelId != "" ==> row.channelId == Some(body.channelId))
    && row.stamp.reference == OrElse(given.reference, id) && row.stamp.direction == OrElse(given.direction, "outbound")
    && row.stamp.agentAlias == OrElse(given.agentAlias, "Adriana") && row.stamp.links == given.links
    && row.stamp.attemptNumber == (if given.attemptNumber == 0 then 1 else given.attemptNumber)
    && row.startedAt == ts
  }

  /** Nothing is known yet of a call that was just opened. */
  ghost predicate Untouched(row: CallRow) {
    && row.status == InProgress && row.qualificationStatus == Pending && row.disqualificationReason == None
    && row.disposition == None && row.vicidialStatus == None && row.endedAt == None
    && row.durationSeconds == None && row.talkTimeSeconds == None
  }

  /** The step delivers an `opened` message and commits. */
  ghost predicate Opens(s: Step, id: string) {
    && s.Deliver? && !s.luck.LostBeforeCommit? && s.message.Message? && s.message.callId == Id(id)
    && s.message.externalEventId != "" && s.message.body.OpenedBody?
  }

  ghost predicate Held(db: Db, channel: string) {
    channel != "" && exists c :: OnChannel(db, c, channel)
  }

  /** An open creates its call exactly if its channel is free, its identifiers are good and the id is
      not taken; on a channel that is held it only records an event of the call that holds it. */
  lemma OpenExactly(db: Db, s: Step, id: string)
    requires OneCallPerChannel(db) && Opens(s, id)
    ensures var after, body, ext := Take(db, s), s.message.body, s.message.externalEventId;
            && after == db.(calls := after.calls, events := after.events)
            && (!Held(db, body.channelId) && body.stamp.Some? && id !in db.calls ==>
                  && after.calls.Keys == db.calls.Keys + {id}
                  && (forall c :: c in db.calls ==> after.calls[c] == db.calls[c])
                  && OpenedAs(after.calls[id], id, body, TimeOf(s)) && Untouched(after.calls[id])
                  && (id, ext) in after.events
                  && ((id, ext) !in db.events ==>
                       after.events == db.events[(id, ext) := EventRow("call.opened", TimeOf(s))]))
            && (!Held(db, body.channelId) && (body.stamp.None? || id in db.calls) ==> after == db)
            && (Held(db, body.channelId) ==> after.calls == db.calls)
            && (forall c :: body.channelId != "" && OnChannel(db, c, body.channelId) ==>
                  after.events == if (c, ext) in db.events then db.events
                                  else db.events[(c, ext) := EventRow("call.opened", TimeOf(s))])
  {
    var m := s.message;
    var body, ext, ts := m.body, m.externalEventId, TimeOf(s);
    TakeOpens(db, m, s.now);
    assert Take(db, s) == Open(db, id, ext, body, ts).0;
    if Held(db, body.channelId) {
      var c :| OnChannel(db, c, body.channelId);
      HeldChannel(db, id, ext, body, ts, c);
    } else {
      FreeChannel(db, id, ext, body, ts);
      if body.stamp.Some? { NewRow(id, body, ts); }
    }
  }

  lemma NewRow(id: string, body: Body, ts: int)
    requires body.OpenedBody? && body.stamp.Some?
    ensures var row := OpenedCall(id, body.channelId, body.stamp.value, ts);
            OpenedAs(row, id, body, ts) && Untouched(row)
  {
  }

  /** A captured field that is named judges the call by all its evidence, open or closed. */
  lemma CaptureExactly(db: Db, s: Step, id: string)
    requires LandsOn(db, s, id) && s.message.body.FieldBody?
    ensures var after := Take(db, s);
            && OnlyRow(db, after, id) && after.outbox == db.outbox && after.performance == db.performance
            && (s.message.body.field == "" ==> after.calls == db.calls)
            && (s.message.body.field != "" ==>
                  && after.calls[id].(qualificationStatus := db.calls[id].qualificationStatus,
                                      disqualificationReason := db.calls[id].disqualificationReason) == db.calls[id]
                  && (after.calls[id].qualificationStatus, after.calls[id].disqualificationReason)
                       == EvaluateQualification(Evidence(after.fields, id)))
  {
    TakeLanding(db, s, id);
  }

  /** Other landed messages leave the calls, the outbox and the performance alone. */
  lemma TalkExactly(db: Db, s: Step, id: string)
    requires LandsOn(db, s, id) && (s.message.body.StateBody? || s.message.body.TranscriptBody?)
    ensures var after := Take(db, s);
            after.calls == db.calls && after.outbox == db.outbox && after.performance == db.performance
  {
    TakeLanding(db, s, id);
  }

  /** The type recorded for a landed message: its own, or else that of its topic. */
  ghost function TypeOf(body: Body): string
    requires !body.OpenedBody?
  {
    OrElse(body.eventType,
           if body.StateBody? then "call.event" else if body.TranscriptBody? then "call.transcript"
           else if body.FieldBody? then "call.field" else "call.closed")
  }

  /** Each landed message is recorded once, under its call and its own id. */
  lemma LandingRecorded(db: Db, s: Step, id: string)
    requires LandsOn(db, s, id)
    ensures Take(db, s).events ==
      db.events[(id, s.message.externalEventId) := EventRow(TypeOf(s.message.body), TimeOf(s))]
  {
    TakeLanding(db, s, id);
    ApplyKeepsCalls(Recorded(db, s, id), id, s.message.body, TimeOf(s));
  }

  /** The operator's disposition is refused on a call that is over.  Otherwise it stands in the row with
      what it implies, a reason only if it implies one, and is announced, as is a change of status. */
  lemma DisposeExactly(db: Db, id: string, disposition: string)
    ensures var (after, ok) := Dispose(db, id, disposition);
            && Take(db, Operator(id, disposition)) == after
            && (ok <==> id in db.calls && !Over(db.calls[id].status))
            && (!ok ==> after == db)
            && (ok ==>
                  var was, row := db.calls[id], after.calls[id];
                  var implied, code := QualificationResult(disposition), ToVicidialStatus(disposition);
                  && after == db.(calls := after.calls, outbox := after.outbox) && OnlyRow(db, after, id)
                  && row == was.(disposition := Some(disposition), qualificationStatus := row.qualificationStatus,
                                 disqualificationReason := row.disqualificationReason,
                                 vicidialStatus := row.vicidialStatus)
                  && row.qualificationStatus == (if implied.Some? then implied.value.0 else was.qualificationStatus)
                  && (implied.Some? && implied.value.1.Some? ==> row.disqualificationReason == implied.value.1)
                  && (implied.None? || implied.value.1.None? ==>
                       row.disqualificationReason == was.disqualificationReason)
                  && row.vicidialStatus == (if code.Some? then code else was.vicidialStatus)
                  && after.outbox == db.outbox + [DispositionChanged(id, was.disposition, disposition)]
                       + if row.qualificationStatus != was.qualificationStatus
                         then [QualificationChanged(id, row.qualificationStatus, implied.value.1)] else [])
  {
  }

  // ----- runs -----

  /** The status of a call changes only from in progress, and only when a message closes it. */
  lemma StepStatus(db: Db, s: Step, id: string)
    requires OneCallPerChannel(db) && id in db.calls
    ensures id in Take(db, s).calls
    ensures !ClosesOn(db, s, id) ==> Take(db, s).calls[id].status == db.calls[id].status
    ensures Take(db, s).calls[id].stamp == db.calls[id].stamp
      && Take(db, s).calls[id].startedAt == db.calls[id].startedAt
    ensures Take(db, s).calls[id].channelId == db.calls[id].channelId
  {
    if c :| LandsOn(db, s, c) {
      match s.message.body
      case StateBody(_, _, _, _) => TalkExactly(db, s, c);
      case TranscriptBody(_, _, _, _, _) => TalkExactly(db, s, c);
      case FieldBody(_, _, _) => CaptureExactly(db, s, c);
      case ClosedBody(_, _, _, _, _, _) =>
        if Over(db.calls[c].status) { ClosedIsRecorded(db, s, c); } else { CloseExactly(db, s, c); }
    } else {
      QuietStatus(db, s, id);
    }
  }

  lemma QuietStatus(db: Db, s: Step, id: string)
    requires OneCallPerChannel(db) && id in db.calls && forall c :: !LandsOn(db, s, c)
    ensures id in Take(db, s).calls
    ensures var before, after := db.calls[id], Take(db, s).calls[id];
            && after.status == before.status && after.stamp == before.stamp
            && after.startedAt == before.startedAt && after.channelId == before.channelId
  {
    if s.Operator? {
      DisposeExactly(db, s.callId, s.disposition);
    } else if !s.luck.LostBeforeCommit? && Identified(s.message) {
      var c := s.message.callId.id;
      assert !LandsOn(db, s, c);
      if s.message.body.OpenedBody? { OpenExactly(db, s, c); } else { OtherSteps(db, s, c); }
    }
  }

  /** Step `i` of the run closes the call. */
  ghost predicate ClosesAt(trace: seq<Step>, i: int, id: string) {
    0 <= i < |trace| && ClosesOn(Run(EMPTY, trace[..i]), trace[i], id)
  }

  ghost predicate CreatesAt(trace: seq<Step>, i: int, id: string) {
    && 0 <= i < |trace| && Opens(trace[i], id) && id !in Run(EMPTY, trace[..i]).calls
    && trace[i].message.body.stamp.Some?
  }

  lemma NewCall(db: Db, s: Step, id: string)
    requires OneCallPerChannel(db) && id !in db.calls && id in Take(db, s).calls
    ensures Opens(s, id) && s.message.body.stamp.Some?
    ensures OpenedAs(Take(db, s).calls[id], id, s.message.body, TimeOf(s)) && Untouched(Take(db, s).calls[id])
  {
    if c :| LandsOn(db, s, c) {
      NoNewCall(db, s, c);
    } else if s.Operator? {
      DisposeExactly(db, s.callId, s.disposition);
    } else if !s.luck.LostBeforeCommit? && Identified(s.message) {
      var c := s.message.callId.id;
      assert !LandsOn(db, s, c);
      if s.message.body.OpenedBody? { OpenExactly(db, s, c); } else { OtherSteps(db, s, c); }
    }
  }

  lemma NoNewCall(db: Db, s: Step, c: string)
    requires LandsOn(db, s, c)
    ensures Take(db, s).calls.Keys == db.calls.Keys
  {
    TakeLanding(db, s, c);
    ApplyKeepsKeys(Recorded(db, s, c), c, s.message.body, TimeOf(s));
  }

  /** After every run each call was opened by a step of it, and has the channel, the stamp and the
      start that message gave it. */
  lemma {:induction false} OpenedByOne(trace: seq<Step>, id: string) returns (i: nat)
    requires id in Run(EMPTY, trace).calls
    ensures CreatesAt(trace, i, id)
      && OpenedAs(Run(EMPTY, trace).calls[id], id, trace[i].message.body, TimeOf(trace[i]))
  {
    var n := |trace| - 1;
    var db := Run(EMPTY, trace[..n]);
    EveryRunIsValid(trace[..n]);
    if id in db.calls {
      i := OpenedByOne(trace[..n], id);
      assert trace[..n][..i] == trace[..i];
      StepStatus(db, trace[n], id);
    } else {
      NewCall(db, trace[n], id);
      i := n;
    }
  }

  /** After every run a call is in progress and was never closed, or it is over, was closed by exactly
      one step, and its outcome is what that message made of the row it found. */
  lemma {:induction false} OutcomeIsTheClosers(trace: seq<Step>, id: string) returns (i: int)
    requires id in Run(EMPTY, trace).calls
    ensures var row := Run(EMPTY, trace).calls[id];
            && (row.status == InProgress <==> i == -1)
            && (forall j :: ClosesAt(trace, j, id) <==> j == i && i >= 0)
            && (i >= 0 ==>
                  && ClosesAt(trace, i, id) && Over(row.status)
                  && exists closed ::
                       ClosedAs(Run(EMPTY, trace[..i]).calls[id], closed, trace[i].message.body, TimeOf(trace[i]))
                       && SameOutcome(row, closed))
  {
    var n := |trace| - 1;
    var front, db := trace[..n], Run(EMPTY, trace[..n]);
    EveryRunIsValid(front);
    PrefixCloses(trace, id);
    if id !in db.calls {
      NewCall(db, trace[n], id);
      NeverClosed(front, id);
      i := -1;
    } else {
      i := OutcomeIsTheClosers(front, id);
      StepStatus(db, trace[n], id);
      if ClosesOn(db, trace[n], id) {
        CloseExactly(db, trace[n], id);
        i := n;
      } else if i >= 0 {
        assert front[..i] == trace[..i];
        StepKeepsCalls(db, trace[n]);
      }
    }
  }

  lemma PrefixCloses(trace: seq<Step>, id: string)
    requires trace != []
    ensures var n := |trace| - 1;
            && (forall j :: 0 <= j < n ==> (ClosesAt(trace, j, id) <==> ClosesAt(trace[..n], j, id)))
            && (ClosesAt(trace, n, id) <==> ClosesOn(Run(EMPTY, trace[..n]), trace[n], id))
  {
    var n := |trace| - 1;
    forall j | 0 <= j < n ensures ClosesAt(trace, j, id) <==> ClosesAt(trace[..n], j, id) {
      assert trace[..n][..j] == trace[..j];
    }
  }

  /** What does not exist was not closed. */
  lemma NeverClosed(trace: seq<Step>, id: string)
    requires id !in Run(EMPTY, trace).calls
    ensures forall j :: !ClosesAt(trace, j, id)
  {
    forall j | ClosesAt(trace, j, id) ensures false {
      assert trace == trace[..j] + trace[j..];
      RunConcat(Take, EMPTY, trace[..j], trace[j..]);
      StaysThere(Run(EMPTY, trace[..j]), trace[j..], id);
    }
  }

  lemma StaysThere(db: Db, trace: seq<Step>, id: string)
    requires id in db.calls
    ensures id in Run(db, trace).calls
  {
    var inv := (d: Db) => id in d.calls;
    forall d, s | inv(d) ensures inv(Take(d, s)) { StepKeepsCalls(d, s); }
    AlwaysKept(Take, inv, db, trace);
  }
}
