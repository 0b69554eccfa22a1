/** When calls do not affect each other: what a run leaves of a set of calls is what their own steps
    leave, exactly unless an open crosses over to a call of the other side. */
module CallIsolation {
  import opened Prelude
  import opened CallPolicies
  import opened CallIngest
  import opened CallIngestTheorems
  import opened CallCommutation
  import opened Transitions

  // ----- the part of a database that belongs to some calls -----

  function CallsIn(calls: map<string, CallRow>, ids: set<string>): map<string, CallRow> {
    map c | c in calls && c in ids :: calls[c]
  }

  function EventsIn(events: map<(string, string), EventRow>, ids: set<string>): map<(string, string), EventRow> {
    map k | k in events && k.0 in ids :: events[k]
  }

  function PerformanceIn(perf: map<string, map<string, string>>, ids: set<string>): map<string, map<string, string>> {
    map c | c in perf && c in ids :: perf[c]
  }

  function RowsIn<T>(rows: seq<Row<T>>, ids: set<string>): seq<Row<T>> {
    if rows == [] then [] else
    var front, last := RowsIn(rows[..|rows| - 1], ids), rows[|rows| - 1];
    if last.callId in ids then front + [last] else front
  }

  function FieldsIn(rows: seq<FieldRow>, ids: set<string>): seq<FieldRow> {
    if rows == [] then [] else
    var front, last := FieldsIn(rows[..|rows| - 1], ids), rows[|rows| - 1];
    if last.callId in ids then front + [last] else front
  }

  function OutboxIn(outbox: seq<OutboxEvent>, ids: set<string>): seq<OutboxEvent> {
    if outbox == [] then [] else
    var front, last := OutboxIn(outbox[..|outbox| - 1], ids), outbox[|outbox| - 1];
    if last.callId in ids then front + [last] else front
  }

  function Restrict(db: Db, ids: set<string>): Db {
    Db(CallsIn(db.calls, ids), EventsIn(db.events, ids), RowsIn(db.nodePaths, ids), RowsIn(db.transcripts, ids),
       FieldsIn(db.fields, ids), PerformanceIn(db.performance, ids), OutboxIn(db.outbox, ids))
  }

  /** The database a step of call `id` leaves, seen from the calls `ids`. */
  ghost predicate SeenAs(before: Db, after: Db, stepped: Db, id: string, ids: set<string>) {
    Restrict(after, ids) == if id in ids then stepped else Restrict(before, ids)
  }

  // ----- adding to a table -----

  lemma OneMoreCall(calls: map<string, CallRow>, id: string, row: CallRow, ids: set<string>)
    ensures CallsIn(calls[id := row], ids) == if id in ids then CallsIn(calls, ids)[id := row] else CallsIn(calls, ids)
  {
  }

  lemma OneMoreEvent(events: map<(string, string), EventRow>, k: (string, string), row: EventRow, ids: set<string>)
    ensures EventsIn(events[k := row], ids) ==
      if k.0 in ids then EventsIn(events, ids)[k := row] else EventsIn(events, ids)
  {
  }

  lemma OneMoreRow<T>(rows: seq<Row<T>>, row: Row<T>, ids: set<string>)
    ensures RowsIn(rows + [row], ids) == RowsIn(rows, ids) + if row.callId in ids then [row] else []
  {
    assert (rows + [row])[..|rows|] == rows;
  }

  lemma OneMoreField(rows: seq<FieldRow>, row: FieldRow, ids: set<string>)
    ensures FieldsIn(rows + [row], ids) == FieldsIn(rows, ids) + if row.callId in ids then [row] else []
  {
    assert (rows + [row])[..|rows|] == rows;
  }

  lemma MoreOutbox(outbox: seq<OutboxEvent>, more: seq<OutboxEvent>, id: string, ids: set<string>)
    requires forall e :: e in more ==> e.callId == id
    ensures OutboxIn(outbox + more, ids) == OutboxIn(outbox, ids) + if id in ids then more else []
    decreases |more|
  {
    if more == [] {
      assert outbox + more == outbox;
    } else {
      var n := |more| - 1;
      assert (outbox + more)[..|outbox + more| - 1] == outbox + more[..n];
      assert more[n] in more && more == more[..n] + [more[n]];
      MoreOutbox(outbox, more[..n], id, ids);
    }
  }

  lemma {:induction false} SameMaxSeq<T>(rows: seq<Row<T>>, id: string, ids: set<string>)
    requires id in ids
    ensures MaxSeq(RowsIn(rows, ids), id) == MaxSeq(rows, id)
  {
    if rows != [] {
      var front, last := rows[..|rows| - 1], rows[|rows| - 1];
      SameMaxSeq(front, id, ids);
      if last.callId in ids { assert (RowsIn(front, ids) + [last])[..|RowsIn(front, ids)|] == RowsIn(front, ids); }
    }
  }

  lemma {:induction false} SameEvidence(rows: seq<FieldRow>, id: string, ids: set<string>)
    requires id in ids
    ensures Evidence(FieldsIn(rows, ids), id) == Evidence(rows, id)
  {
    if rows != [] {
      var front, last := rows[..|rows| - 1], rows[|rows| - 1];
      SameEvidence(front, id, ids);
      if last.callId in ids {
        assert (FieldsIn(front, ids) + [last])[..|FieldsIn(front, ids)|] == FieldsIn(front, ids);
      }
    }
  }

  // ----- the handlers -----

  lemma RecordSeen(db: Db, id: string, ext: string, eventType: string, ts: int, ids: set<string>)
    ensures SeenAs(db, Record(db, id, ext, eventType, ts), Record(Restrict(db, ids), id, ext, eventType, ts), id, ids)
  {
    OneMoreEvent(db.events, (id, ext), EventRow(eventType, ts), ids);
  }

  lemma EnterNodeSeen(db: Db, id: string, body: Body, ts: int, ids: set<string>)
    requires body.StateBody?
    ensures SeenAs(db, EnterNode(db, id, body, ts), EnterNode(Restrict(db, ids), id, body, ts), id, ids)
  {
    var visit := NodeVisit(if body.nodeId != "" then body.nodeId else "unknown", body.nodeType, body.nodeName, ts);
    OneMoreRow(db.nodePaths, Row(id, MaxSeq(db.nodePaths, id) + 1, visit), ids);
    if id in ids { SameMaxSeq(db.nodePaths, id, ids); }
  }

  lemma TranscribeSeen(db: Db, id: string, body: Body, ids: set<string>)
    requires body.TranscriptBody?
    ensures SeenAs(db, Transcribe(db, id, body), Transcribe(Restrict(db, ids), id, body), id, ids)
  {
    var turn := Turn(if body.speaker != "" then body.speaker else "unknown", body.text, body.nodeId);
    OneMoreRow(db.transcripts, Row(id, MaxSeq(db.transcripts, id) + 1, turn), ids);
    if id in ids { SameMaxSeq(db.transcripts, id, ids); }
  }

  lemma ReevaluateSeen(db: Db, id: string, ids: set<string>)
    requires id in db.calls
    ensures id in ids ==> Restrict(Reevaluate(db, id), ids) == Reevaluate(Restrict(db, ids), id)
    ensures id !in ids ==> Restrict(Reevaluate(db, id), ids) == Restrict(db, ids)
  {
    var (status, reason) := EvaluateQualification(Evidence(db.fields, id));
    OneMoreCall(db.calls, id, db.calls[id].(qualificationStatus := status, disqualificationReason := reason), ids);
    if id in ids { SameEvidence(db.fields, id, ids); }
  }

  lemma CaptureSeen(db: Db, id: string, body: Body, ts: int, ids: set<string>)
    requires body.FieldBody? && id in db.calls
    ensures id in ids ==> Restrict(Capture(db, id, body, ts), ids) == Capture(Restrict(db, ids), id, body, ts)
    ensures id !in ids ==> Restrict(Capture(db, id, body, ts), ids) == Restrict(db, ids)
  {
    var row := FieldRow(id, body.field, body.value, ts);
    OneMoreField(db.fields, row, ids);
    ReevaluateSeen(db.(fields := db.fields + [row]), id, ids);
  }

  lemma PerformanceSeen(
      perf: map<string, map<string, string>>, id: string, values: map<string, string>, ids: set<string>)
    ensures id in ids ==>
      PerformanceIn(UpsertPerformance(perf, id, values), ids) == UpsertPerformance(PerformanceIn(perf, ids), id, values)
    ensures id !in ids ==> PerformanceIn(UpsertPerformance(perf, id, values), ids) == PerformanceIn(perf, ids)
  {
  }

  lemma CloseSeen(db: Db, id: string, body: Body, ts: int, ids: set<string>)
    requires body.ClosedBody? && id in db.calls
    ensures id in ids ==> Restrict(Close(db, id, body, ts), ids) == Close(Restrict(db, ids), id, body, ts)
    ensures id !in ids ==> Restrict(Close(db, id, body, ts), ids) == Restrict(db, ids)
  {
    if !Terminal(db.calls[id].status) {
      var call := ClosedCall(db.calls[id], body, ts);
      OneMoreCall(db.calls, id, call, ids);
      PerformanceSeen(db.performance, id, body.performance, ids);
      MoreOutbox(db.outbox, [CompletedEvent(id, call, ts, body.performance)], id, ids);
    }
  }

  lemma ApplySeen(db: Db, id: string, body: Body, ts: int, ids: set<string>)
    requires !body.OpenedBody? && id in db.calls
    ensures id in ids ==> Restrict(Apply(db, id, body, ts), ids) == Apply(Restrict(db, ids), id, body, ts)
    ensures id !in ids ==> Restrict(Apply(db, id, body, ts), ids) == Restrict(db, ids)
  {
    match body
    case StateBody(_, _, _, _) => EnterNodeSeen(db, id, body, ts, ids);
    case TranscriptBody(_, _, _, _, _) => TranscribeSeen(db, id, body, ids);
    case FieldBody(_, _, _) => CaptureSeen(db, id, body, ts, ids);
    case ClosedBody(_, _, _, _, _, _) => CloseSeen(db, id, body, ts, ids);
  }

  lemma DisposeSeen(db: Db, id: string, disposition: string, ids: set<string>)
    ensures id in ids ==> Restrict(Dispose(db, id, disposition).0, ids) == Dispose(Restrict(db, ids), id, disposition).0
    ensures id !in ids ==> Restrict(Dispose(db, id, disposition).0, ids) == Restrict(db, ids)
  {
    if id in db.calls && CanUpdateDisposition(db.calls[id].status) {
      OneMoreCall(db.calls, id, DisposedCall(db.calls[id], disposition), ids);
      MoreOutbox(db.outbox, DispositionEvents(id, db.calls[id], disposition), id, ids);
    }
  }

  // ----- opening -----

  lemma ChannelSeen(db: Db, c: string, channel: string, ids: set<string>)
    ensures OnChannel(Restrict(db, ids), c, channel) <==> OnChannel(db, c, channel) && c in ids
  {
  }

  lemma HeldChannel(db: Db, id: string, ext: string, body: Body, ts: int, c: string)
    requires body.OpenedBody? && body.channelId != "" && OnChannel(db, c, body.channelId) && OneCallPerChannel(db)
    ensures Open(db, id, ext, body, ts) == (Record(db, c, ext, "call.opened", ts), Handled)
  {
  }

  lemma FreeChannel(db: Db, id: string, ext: string, body: Body, ts: int)
    requires body.OpenedBody? && (body.channelId == "" || forall c :: !OnChannel(db, c, body.channelId))
    ensures body.stamp.None? || id in db.calls ==> Open(db, id, ext, body, ts) == (db, Failure)
    ensures body.stamp.Some? && id !in db.calls ==>
      var row := OpenedCall(id, body.channelId, body.stamp.value, ts);
      Open(db, id, ext, body, ts) == (Record(db.(calls := db.calls[id := row]), id, ext, "call.opened", ts), Handled)
  {
  }

  lemma RestrictKeepsChannels(db: Db, ids: set<string>)
    requires OneCallPerChannel(db)
    ensures OneCallPerChannel(Restrict(db, ids))
  {
    var part := Restrict(db, ids);
    forall c, d, ch | OnChannel(part, c, ch) && OnChannel(part, d, ch) ensures c == d {
      ChannelSeen(db, c, ch, ids);
      ChannelSeen(db, d, ch, ids);
    }
  }

  /** What an open of call `id` should look like from the calls `ids`. */
  ghost predicate OpenIsOwn(db: Db, id: string, ext: string, body: Body, ts: int, ids: set<string>)
    requires body.OpenedBody?
  {
    Restrict(Open(db, id, ext, body, ts).0, ids) ==
      if id in ids then Open(Restrict(db, ids), id, ext, body, ts).0 else Restrict(db, ids)
  }

  lemma OpenHeldSeen(db: Db, id: string, ext: string, body: Body, ts: int, c: string, ids: set<string>)
    requires body.OpenedBody? && OneCallPerChannel(db) && (c in ids <==> id in ids)
    requires body.channelId != "" && OnChannel(db, c, body.channelId)
    ensures OpenIsOwn(db, id, ext, body, ts, ids)
  {
    HeldChannel(db, id, ext, body, ts, c);
    RecordSeen(db, c, ext, "call.opened", ts, ids);
    if id in ids {
      ChannelSeen(db, c, body.channelId, ids);
      RestrictKeepsChannels(db, ids);
      HeldChannel(Restrict(db, ids), id, ext, body, ts, c);
    }
  }

  lemma OpenFreeSeen(db: Db, id: string, ext: string, body: Body, ts: int, ids: set<string>)
    requires body.OpenedBody? && (body.channelId == "" || forall c :: !OnChannel(db, c, body.channelId))
    ensures OpenIsOwn(db, id, ext, body, ts, ids)
  {
    FreeChannel(db, id, ext, body, ts);
    if body.channelId != "" {
      forall c ensures !OnChannel(Restrict(db, ids), c, body.channelId) { ChannelSeen(db, c, body.channelId, ids); }
    }
    FreeChannel(Restrict(db, ids), id, ext, body, ts);
    if body.stamp.Some? && id !in db.calls {
      var row := OpenedCall(id, body.channelId, body.stamp.value, ts);
      OneMoreCall(db.calls, id, row, ids);
      RecordSeen(db.(calls := db.calls[id := row]), id, ext, "call.opened", ts, ids);
    }
  }

  /** An open that finds its channel held on the other side: a call of ours is not created, or an
      event is recorded for one of ours that is not its own. */
  ghost predicate LeavesTrace(db: Db, id: string, ext: string, body: Body, c: string, ids: set<string>)
    requires body.OpenedBody?
  {
    if id in ids then body.stamp.Some? && id !in db.calls else (c, ext) !in db.events
  }

  lemma OpenAcross(db: Db, id: string, ext: string, body: Body, ts: int, c: string, ids: set<string>)
    requires body.OpenedBody? && OneCallPerChannel(db) && (c in ids <==> id !in ids)
    requires body.channelId != "" && OnChannel(db, c, body.channelId)
    ensures OpenIsOwn(db, id, ext, body, ts, ids) <==> !LeavesTrace(db, id, ext, body, c, ids)
  {
    var after, part := Open(db, id, ext, body, ts).0, Restrict(db, ids);
    HeldChannel(db, id, ext, body, ts, c);
    RecordSeen(db, c, ext, "call.opened", ts, ids);
    if id in ids {
      forall d ensures !OnChannel(part, d, body.channelId) { ChannelSeen(db, d, body.channelId, ids); }
      FreeChannel(part, id, ext, body, ts);
      assert id in part.calls <==> id in db.calls;
    } else if (c, ext) !in db.events {
      assert (c, ext) in Restrict(after, ids).events && (c, ext) !in part.events;
    }
  }

  // ----- steps -----

  /** The step is one of the calls `ids`. */
  ghost predicate Concerns(s: Step, ids: set<string>) {
    match s
    case Operator(id, _) => id in ids
    case Deliver(m, _, _) => m.Message? && m.callId.Id? && m.callId.id in ids
  }

  /** The step opens call `id` on a channel. */
  ghost predicate OpensOn(s: Step, id: string, channel: string) {
    && s.Deliver? && !s.luck.LostBeforeCommit? && Identified(s.message) && s.message.callId == Id(id)
    && s.message.body.OpenedBody? && s.message.body.channelId == channel && channel != ""
  }

  /** The step opens a call on a channel that call `c` of the other side holds, and leaves a trace. */
  ghost predicate CrossesWith(db: Db, s: Step, ids: set<string>, id: string, channel: string, c: string) {
    && OpensOn(s, id, channel) && OnChannel(db, c, channel) && (c in ids <==> id !in ids)
    && LeavesTrace(db, id, s.message.externalEventId, s.message.body, c, ids)
  }

  ghost predicate Crosses(db: Db, s: Step, ids: set<string>) {
    exists id, channel, c :: CrossesWith(db, s, ids, id, channel, c)
  }

  /** The step does to the calls `ids` what it does without all others: its own effect if it is one
      of theirs, nothing if it is not. */
  ghost predicate IsOwn(db: Db, s: Step, ids: set<string>) {
    Restrict(Take(db, s), ids) == if Concerns(s, ids) then Take(Restrict(db, ids), s) else Restrict(db, ids)
  }

  lemma LandingSeen(db: Db, id: string, ext: string, body: Body, ts: int, ids: set<string>)
    requires id in db.calls && !body.OpenedBody?
    ensures var after := Apply(Record(db, id, ext, EventTypeOf(body), ts), id, body, ts);
            && (id in ids ==>
                  Restrict(after, ids) ==
                    Apply(Record(Restrict(db, ids), id, ext, EventTypeOf(body), ts), id, body, ts))
            && (id !in ids ==> Restrict(after, ids) == Restrict(db, ids))
  {
    RecordSeen(db, id, ext, EventTypeOf(body), ts, ids);
    ApplySeen(Record(db, id, ext, EventTypeOf(body), ts), id, body, ts, ids);
  }

  lemma OtherDeliverySeen(db: Db, m: Message, now: int, ids: set<string>)
    requires !(Identified(m) && m.body.OpenedBody?)
    ensures IsOwn(db, Deliver(m, now, Fine), ids)
  {
    if Identified(m) {
      var id, ext, ts := m.callId.id, m.externalEventId, m.eventTs.GetOr(now);
      if id in db.calls && (id, ext) !in db.events {
        LandingSeen(db, id, ext, m.body, ts, ids);
      }
    }
  }

  lemma OpenDeliverySeen(db: Db, m: Message, now: int, ids: set<string>)
    requires OneCallPerChannel(db) && Identified(m) && m.body.OpenedBody?
    ensures IsOwn(db, Deliver(m, now, Fine), ids) <==> !Crosses(db, Deliver(m, now, Fine), ids)
  {
    var id, ext, body, ts := m.callId.id, m.externalEventId, m.body, m.eventTs.GetOr(now);
    OpenIsTheStep(db, m, now, ids);
    if body.channelId != "" {
      if c :| OnChannel(db, c, body.channelId) {
        OneHolder(db, m, now, ids, c);
        if c in ids <==> id in ids {
          OpenHeldSeen(db, id, ext, body, ts, c, ids);
        } else {
          OpenAcross(db, id, ext, body, ts, c, ids);
        }
        return;
      }
    }
    OpenFreeSeen(db, id, ext, body, ts, ids);
  }

  lemma OpenIsTheStep(db: Db, m: Message, now: int, ids: set<string>)
    requires Identified(m) && m.body.OpenedBody?
    ensures IsOwn(db, Deliver(m, now, Fine), ids) <==>
      OpenIsOwn(db, m.callId.id, m.externalEventId, m.body, m.eventTs.GetOr(now), ids)
  {
    TakeOpens(db, m, now);
    TakeOpens(Restrict(db, ids), m, now);
  }

  lemma TakeOpens(db: Db, m: Message, now: int)
    requires Identified(m) && m.body.OpenedBody?
    ensures Take(db, Deliver(m, now, Fine)) == Open(db, m.callId.id, m.externalEventId, m.body, m.eventTs.GetOr(now)).0
  {
    assert Ingest(db, m, now) == Open(db, m.callId.id, m.externalEventId, m.body, m.eventTs.GetOr(now));
  }

  lemma OneHolder(db: Db, m: Message, now: int, ids: set<string>, c: string)
    requires OneCallPerChannel(db) && Identified(m) && m.body.OpenedBody? && m.body.channelId != ""
    requires OnChannel(db, c, m.body.channelId)
    ensures Crosses(db, Deliver(m, now, Fine), ids) <==>
      (c in ids <==> m.callId.id !in ids) && LeavesTrace(db, m.callId.id, m.externalEventId, m.body, c, ids)
  {
    var id, channel, s := m.callId.id, m.body.channelId, Deliver(m, now, Fine);
    assert OpensOn(s, id, channel);
    if (c in ids <==> id !in ids) && LeavesTrace(db, id, m.externalEventId, m.body, c, ids) {
      assert CrossesWith(db, s, ids, id, channel, c);
    }
  }

  /** A step does to some calls what it does without all others, exactly unless it crosses over. */
  lemma StepSeen(db: Db, s: Step, ids: set<string>)
    requires OneCallPerChannel(db)
    ensures IsOwn(db, s, ids) <==> !Crosses(db, s, ids)
  {
    match s
    case Operator(id, disposition) => DisposeSeen(db, id, disposition, ids);
    case Deliver(m, now, luck) =>
      if !luck.LostBeforeCommit? {
        if Identified(m) && m.body.OpenedBody? {
          OpenDeliverySeen(db, m, now, ids);
        } else {
          OtherDeliverySeen(db, m, now, ids);
        }
        assert IsOwn(db, s, ids) <==> IsOwn(db, Deliver(m, now, Fine), ids);
        assert forall id, ch, c :: CrossesWith(db, s, ids, id, ch, c) <==>
          CrossesWith(db, Deliver(m, now, Fine), ids, id, ch, c);
      }
  }

  // ----- runs -----

  /** The steps of the calls `ids`, in order. */
  ghost function OnlyOf(trace: seq<Step>, ids: set<string>): seq<Step> {
    if trace == [] then [] else
    var front, last := OnlyOf(trace[..|trace| - 1], ids), trace[|trace| - 1];
    if Concerns(last, ids) then front + [last] else front
  }

  /** After the first `n` steps the calls `ids` are as their own steps leave them. */
  ghost predicate IsolatedAt(trace: seq<Step>, ids: set<string>, n: int) {
    0 <= n <= |trace| && Restrict(Run(EMPTY, trace[..n]), ids) == Run(EMPTY, OnlyOf(trace[..n], ids))
  }

  ghost predicate CrossesAt(trace: seq<Step>, ids: set<string>, i: int) {
    0 <= i < |trace| && Crosses(Run(EMPTY, trace[..i]), trace[i], ids)
  }

  lemma OneStepMore(trace: seq<Step>, ids: set<string>, n: nat)
    requires n < |trace| && IsolatedAt(trace, ids, n)
    ensures IsolatedAt(trace, ids, n + 1) <==> !CrossesAt(trace, ids, n)
  {
    var db, s := Run(EMPTY, trace[..n]), trace[n];
    assert trace[..n + 1][..n] == trace[..n];
    EveryRunIsValid(trace[..n]);
    StepSeen(db, s, ids);
    if Concerns(s, ids) { RunOneMore(Take, EMPTY, OnlyOf(trace[..n], ids), s); }
  }

  lemma {:induction false} IsolatedUpTo(trace: seq<Step>, ids: set<string>, n: nat)
    requires n <= |trace| && forall i :: !CrossesAt(trace, ids, i)
    ensures IsolatedAt(trace, ids, n)
  {
    if n == 0 {
      assert trace[..0] == [];
    } else {
      IsolatedUpTo(trace, ids, n - 1);
      OneStepMore(trace, ids, n - 1);
    }
  }

  /** At every point of a run, some calls, their rows, sequence numbers and outbox events included,
      are as their own steps leave them, whatever happens to all other calls in between, exactly when
      no step crosses over. */
  lemma IsolationExactly(trace: seq<Step>, ids: set<string>)
    ensures (forall n :: 0 <= n <= |trace| ==> IsolatedAt(trace, ids, n)) <==> (forall i :: !CrossesAt(trace, ids, i))
  {
    if forall n :: 0 <= n <= |trace| ==> IsolatedAt(trace, ids, n) {
      forall i: nat | i < |trace| ensures !CrossesAt(trace, ids, i) {
        assert IsolatedAt(trace, ids, i) && IsolatedAt(trace, ids, i + 1);
        OneStepMore(trace, ids, i);
      }
    }
    if forall i :: !CrossesAt(trace, ids, i) {
      forall n: nat | n <= |trace| ensures IsolatedAt(trace, ids, n) { IsolatedUpTo(trace, ids, n); }
    }
  }

  // ----- a condition on the messages alone -----

  /** No channel is opened by one of the calls and by another. */
  ghost predicate NoSharedChannel(trace: seq<Step>, ids: set<string>) {
    forall s, t, c, d, channel :: s in trace && t in trace && OpensOn(s, c, channel) && OpensOn(t, d, channel) ==>
      (c in ids <==> d in ids)
  }

  lemma StepOpens(db: Db, s: Step, c: string, channel: string)
    requires OnChannel(Take(db, s), c, channel) && channel != ""
    ensures OnChannel(db, c, channel) || OpensOn(s, c, channel)
  {
    match s
    case Operator(id, disposition) => DisposeKeepsCalls(db, id, disposition);
    case Deliver(m, now, luck) =>
      if !luck.LostBeforeCommit? && Identified(m) {
        if m.body.OpenedBody? {
          OpenOpens(db, m.callId.id, m.externalEventId, m.body, m.eventTs.GetOr(now), c, channel);
        } else if m.callId.id in db.calls && (m.callId.id, m.externalEventId) !in db.events {
          LandingOpensNone(db, m.callId.id, m.externalEventId, m.body, m.eventTs.GetOr(now), c, channel);
        }
      }
  }

  lemma OpenOpens(db: Db, id: string, ext: string, body: Body, ts: int, c: string, channel: string)
    requires body.OpenedBody? && OnChannel(Open(db, id, ext, body, ts).0, c, channel) && channel != ""
    ensures OnChannel(db, c, channel) || (c == id && channel == body.channelId)
  {
  }

  lemma LandingOpensNone(db: Db, id: string, ext: string, body: Body, ts: int, c: string, channel: string)
    requires !body.OpenedBody? && id in db.calls
    requires OnChannel(Apply(Record(db, id, ext, EventTypeOf(body), ts), id, body, ts), c, channel)
    ensures OnChannel(db, c, channel)
  {
    LandingKeepsCalls(db, id, ext, body, ts);
    ApplyKeepsKeys(Record(db, id, ext, EventTypeOf(body), ts), id, body, ts);
  }

  /** A call holds a channel only if a step opened it there. */
  lemma {:induction false} HolderOpened(trace: seq<Step>, c: string, channel: string) returns (s: Step)
    requires OnChannel(Run(EMPTY, trace), c, channel) && channel != ""
    ensures s in trace && OpensOn(s, c, channel)
  {
    var front, last := trace[..|trace| - 1], trace[|trace| - 1];
    if OpensOn(last, c, channel) { return last; }
    StepOpens(Run(EMPTY, front), last, c, channel);
    s := HolderOpened(front, c, channel);
  }

  /** So calls without a channel in common with the others are never affected by them. */
  lemma CallsAreIsolated(trace: seq<Step>, ids: set<string>)
    requires NoSharedChannel(trace, ids)
    ensures forall n :: 0 <= n <= |trace| ==> IsolatedAt(trace, ids, n)
  {
    forall i ensures !CrossesAt(trace, ids, i) {
      if CrossesAt(trace, ids, i) {
        var id, channel, c :| CrossesWith(Run(EMPTY, trace[..i]), trace[i], ids, id, channel, c);
        var s := HolderOpened(trace[..i], c, channel);
      }
    }
    IsolationExactly(trace, ids);
  }

  // ----- why no channel may be shared -----

  ghost function OpeningOn(id: string, channel: string): Step {
    Deliver(Message(Id(id), "open", Some(0), OpenedBody(channel, Some(Stamp("", "", "", 0, map[])))), 0, Fine)
  }

  ghost predicate HoldsOnly(db: Db, id: string, channel: string) {
    db.calls.Keys == {id} && db.calls[id].channelId == Some(channel) && channel != ""
  }

  lemma FirstOpens(id: string, channel: string)
    requires channel != ""
    ensures HoldsOnly(Take(EMPTY, OpeningOn(id, channel)), id, channel)
  {
    FreeChannel(EMPTY, id, "open", OpeningOn(id, channel).message.body, 0);
  }

  lemma SecondOpen(db: Db, a: string, x: string, b: string, y: string)
    requires HoldsOnly(db, a, x) && y != "" && a != b
    ensures x != y ==> Take(db, OpeningOn(a, y)) == db && b in Take(db, OpeningOn(b, y)).calls
    ensures x == y ==> b !in Take(db, OpeningOn(b, y)).calls
  {
    if x != y {
      FreeChannel(db, a, "open", OpeningOn(a, y).message.body, 0);
      FreeChannel(db, b, "open", OpeningOn(b, y).message.body, 0);
    } else {
      assert OnChannel(db, a, y) && OneCallPerChannel(db);
      HeldChannel(db, b, "open", OpeningOn(b, y).message.body, 0, a);
    }
  }

  /** A call that shares a channel does depend on others, and even on their opens on other
      channels: `b` is opened on `y` when `a` holds another channel, and is not when `a` was never
      opened on that one. */
  lemma SharedChannelMatters(a: string, x: string, b: string, y: string)
    requires a != b && x != y && x != "" && y != ""
    ensures b in Run(EMPTY, [OpeningOn(a, x), OpeningOn(a, y), OpeningOn(b, y)]).calls
    ensures b !in Run(EMPTY, [OpeningOn(a, y), OpeningOn(b, y)]).calls
  {
    FirstOpens(a, x);
    FirstOpens(a, y);
    var one, two := Take(EMPTY, OpeningOn(a, x)), Take(EMPTY, OpeningOn(a, y));
    SecondOpen(one, a, x, b, y);
    SecondOpen(two, a, y, b, y);
    TwoSteps(OpeningOn(a, y), OpeningOn(b, y));
    TwoSteps(OpeningOn(a, x), OpeningOn(a, y));
    RunOneMore(Take, EMPTY, [OpeningOn(a, x), OpeningOn(a, y)], OpeningOn(b, y));
    assert [OpeningOn(a, x), OpeningOn(a, y)] + [OpeningOn(b, y)] ==
      [OpeningOn(a, x), OpeningOn(a, y), OpeningOn(b, y)];
  }

  lemma TwoSteps(s: Step, t: Step)
    ensures Run(EMPTY, [s, t]) == Take(Take(EMPTY, s), t)
  {
    RunOneMore(Take, EMPTY, [], s);
    RunOneMore(Take, EMPTY, [] + [s], t);
    assert [] + [s] + [t] == [s, t];
  }
}
