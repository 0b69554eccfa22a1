/** Delivery laws of the call ingest: at-least-once delivery has effectively-once effects, what
    every step keeps, and which messages of a call commute. */
module CallIngestTheorems {
  import opened Prelude
  import opened CallPolicies
  import opened CallIngest
  import opened Transitions

  // ----- runs -----

  /** A delivery can be lost before its transaction commits, or after it commits and before the
      consumer learns of it. */
  datatype Luck = Fine | LostBeforeCommit | LostAfterCommit

  datatype Step =
    | Deliver(message: Message, now: int, luck: Luck)
    | Operator(callId: string, disposition: string)

  ghost function Take(db: Db, s: Step): Db {
    match s
    case Deliver(m, now, luck) => if luck.LostBeforeCommit? then db else Ingest(db, m, now).0
    case Operator(id, disposition) => Dispose(db, id, disposition).0
  }

  /** An `opened` message without a channel. */
  ghost function OpenOf(id: string): Message {
    Message(Id(id), "open", Some(0), OpenedBody("", Some(Stamp("", "", "", 0, map[]))))
  }

  ghost function Run(db: Db, trace: seq<Step>): Db {
    RunOf(Take, db, trace)
  }

  /** The outcome of a message, which the clock has no part in. */
  ghost function OutcomeOf(db: Db, m: Message): Outcome {
    if m.Poison? then Handled
    else if m.callId.BadId? then Failure
    else if m.callId.NoId? || m.externalEventId == "" then Handled
    else if !m.body.OpenedBody? then if m.callId.id in db.calls then Handled else Waiting
    else if m.body.channelId != "" && exists c :: OnChannel(db, c, m.body.channelId) then
      if exists c, d :: c != d && OnChannel(db, c, m.body.channelId) && OnChannel(db, d, m.body.channelId) then Failure
      else Handled
    else if m.body.stamp.None? || m.callId.id in db.calls then Failure else Handled
  }

  lemma OutcomeIgnoresClock(db: Db, m: Message, now: int)
    ensures Ingest(db, m, now).1 == OutcomeOf(db, m)
  {
  }

  /** The delivery committed: it was not lost and the message was handled. */
  ghost predicate Applied(db: Db, s: Step) {
    s.Deliver? && !s.luck.LostBeforeCommit? && OutcomeOf(db, s.message) == Handled
  }

  // ----- what every step keeps -----

  function RowsOf<T>(rows: seq<Row<T>>, id: string): seq<Row<T>> {
    if rows == [] then [] else
    var front, last := RowsOf(rows[..|rows| - 1], id), rows[|rows| - 1];
    if last.callId == id then front + [last] else front
  }

  /** The sequence numbers of each call are exactly 1..n, in insertion order. */
  ghost predicate Numbered<T>(rows: seq<Row<T>>) {
    forall id, k :: 0 <= k < |RowsOf(rows, id)| ==> RowsOf(rows, id)[k].seqNo == k + 1
  }

  function CompletedCount(outbox: seq<OutboxEvent>, id: string): nat {
    if outbox == [] then 0 else
    var last := outbox[|outbox| - 1];
    CompletedCount(outbox[..|outbox| - 1], id) + if last.CallCompleted? && last.callId == id then 1 else 0
  }

  /** At most one call per channel. */
  ghost predicate OneCallPerChannel(db: Db) {
    forall c, d, ch :: OnChannel(db, c, ch) && OnChannel(db, d, ch) ==> c == d
  }

  /** A call has one `call.completed` event if it is closed and none otherwise. */
  ghost predicate CompletedOnce(db: Db) {
    forall id :: CompletedCount(db.outbox, id) == if id in db.calls && Terminal(db.calls[id].status) then 1 else 0
  }

  ghost predicate EventsHaveCalls(db: Db) {
    forall k :: k in db.events ==> k.0 in db.calls
  }

  ghost predicate Valid(db: Db) {
    && OneCallPerChannel(db)
    && Numbered(db.nodePaths) && Numbered(db.transcripts)
    && CompletedOnce(db)
    && EventsHaveCalls(db)
  }

  lemma {:induction false} MaxSeqIsCount<T>(rows: seq<Row<T>>, id: string)
    requires Numbered(rows)
    ensures MaxSeq(rows, id) == |RowsOf(rows, id)|
  {
    if rows != [] {
      var front, last := rows[..|rows| - 1], rows[|rows| - 1];
      forall c, k | 0 <= k < |RowsOf(front, c)| ensures RowsOf(front, c)[k].seqNo == k + 1 {
        assert RowsOf(rows, c)[k] == RowsOf(front, c)[k];
      }
      MaxSeqIsCount(front, id);
      if last.callId == id {
        assert RowsOf(rows, id)[|RowsOf(front, id)|] == last;
      }
    }
  }

  lemma AppendKeepsNumbered<T>(rows: seq<Row<T>>, id: string, content: T)
    requires Numbered(rows)
    ensures Numbered(rows + [Row(id, MaxSeq(rows, id) + 1, content)])
  {
    MaxSeqIsCount(rows, id);
    var rows' := rows + [Row(id, MaxSeq(rows, id) + 1, content)];
    assert rows'[..|rows|] == rows;
    forall c, k | 0 <= k < |RowsOf(rows', c)| ensures RowsOf(rows', c)[k].seqNo == k + 1 {
      if k < |RowsOf(rows, c)| { assert RowsOf(rows', c)[k] == RowsOf(rows, c)[k]; }
    }
  }

  lemma CompletedCountAppend(outbox: seq<OutboxEvent>, more: seq<OutboxEvent>, id: string)
    ensures CompletedCount(outbox + more, id) == CompletedCount(outbox, id) + CompletedCount(more, id)
  {
    if more == [] {
      assert outbox + more == outbox;
    } else {
      assert (outbox + more)[..|outbox + more| - 1] == outbox + more[..|more| - 1];
      CompletedCountAppend(outbox, more[..|more| - 1], id);
    }
  }

  /** A row change that leaves channel and openness alone leaves the invariants alone. */
  lemma RowChangeKeepsValid(db: Db, db': Db, id: string)
    requires Valid(db) && id in db.calls
    requires db'.calls.Keys == db.calls.Keys
    requires forall c :: c in db.calls ==>
      db'.calls[c].channelId == db.calls[c].channelId && Terminal(db'.calls[c].status) == Terminal(db.calls[c].status)
    requires db'.events.Keys <= db.events.Keys + (set k | k in db'.events && k.0 in db.calls)
    requires Numbered(db'.nodePaths) && Numbered(db'.transcripts)
    requires forall c :: CompletedCount(db'.outbox, c) == CompletedCount(db.outbox, c)
    ensures Valid(db')
  {
    forall c, d, ch | OnChannel(db', c, ch) && OnChannel(db', d, ch) ensures c == d {
      assert OnChannel(db, c, ch) && OnChannel(db, d, ch);
    }
  }

  lemma RecordKeepsValid(db: Db, id: string, ext: string, eventType: string, ts: int)
    requires Valid(db) && id in db.calls
    ensures Valid(Record(db, id, ext, eventType, ts))
  {
    RowChangeKeepsValid(db, Record(db, id, ext, eventType, ts), id);
  }

  lemma OpenKeepsValid(db: Db, id: string, ext: string, body: Body, ts: int)
    requires Valid(db) && body.OpenedBody?
    ensures Valid(Open(db, id, ext, body, ts).0)
  {
    if body.channelId != "" && exists c :: OnChannel(db, c, body.channelId) {
      var c :| OnChannel(db, c, body.channelId);
      assert Open(db, id, ext, body, ts).0 == Record(db, c, ext, "call.opened", ts);
      RecordKeepsValid(db, c, ext, "call.opened", ts);
    } else if body.stamp.Some? && id !in db.calls {
      var added := db.(calls := db.calls[id := OpenedCall(id, body.channelId, body.stamp.value, ts)]);
      forall c, d, ch | OnChannel(added, c, ch) && OnChannel(added, d, ch) ensures c == d {
        if c != id { assert OnChannel(db, c, ch); }
        if d != id { assert OnChannel(db, d, ch); }
      }
      assert Valid(added);
      RecordKeepsValid(added, id, ext, "call.opened", ts);
    }
  }

  lemma CloseKeepsValid(db: Db, id: string, body: Body, ts: int)
    requires Valid(db) && body.ClosedBody? && id in db.calls
    ensures Valid(Close(db, id, body, ts))
  {
    if !Terminal(db.calls[id].status) {
      ClosedRow(db.calls[id], body, ts);
      CompletingKeepsValid(db, Close(db, id, body, ts), id, ClosedCall(db.calls[id], body, ts),
                           CompletedEvent(id, ClosedCall(db.calls[id], body, ts), ts, body.performance));
    }
  }

  lemma ClosedRow(call: CallRow, body: Body, ts: int)
    requires body.ClosedBody?
    ensures ClosedCall(call, body, ts).channelId == call.channelId && Terminal(ClosedCall(call, body, ts).status)
  {
  }

  lemma OneMoreCompleted(outbox: seq<OutboxEvent>, event: OutboxEvent, id: string)
    requires event.CallCompleted?
    ensures CompletedCount(outbox + [event], id) == CompletedCount(outbox, id) + if event.callId == id then 1 else 0
  {
    assert (outbox + [event])[..|outbox|] == outbox;
  }

  lemma CompletingKeepsValid(db: Db, db': Db, id: string, call: CallRow, event: OutboxEvent)
    requires Valid(db) && id in db.calls && !Terminal(db.calls[id].status)
    requires call.channelId == db.calls[id].channelId && Terminal(call.status)
    requires event.CallCompleted? && event.callId == id
    requires db' == db.(calls := db.calls[id := call], performance := db'.performance, outbox := db.outbox + [event])
    ensures Valid(db')
  {
    forall c ensures CompletedCount(db'.outbox, c) == CompletedCount(db.outbox, c) + if c == id then 1 else 0 {
      OneMoreCompleted(db.outbox, event, c);
    }
    forall c, d, ch | OnChannel(db', c, ch) && OnChannel(db', d, ch) ensures c == d {
      assert OnChannel(db, c, ch) && OnChannel(db, d, ch);
    }
  }

  lemma EnterNodeKeepsValid(db: Db, id: string, body: Body, ts: int)
    requires Valid(db) && id in db.calls && body.StateBody?
    ensures Valid(EnterNode(db, id, body, ts))
  {
    var db' := EnterNode(db, id, body, ts);
    if db' != db {
      AppendKeepsNumbered(db.nodePaths, id, db'.nodePaths[|db.nodePaths|].content);
      RowChangeKeepsValid(db, db', id);
    }
  }

  lemma TranscribeKeepsValid(db: Db, id: string, body: Body)
    requires Valid(db) && id in db.calls && body.TranscriptBody?
    ensures Valid(Transcribe(db, id, body))
  {
    var db' := Transcribe(db, id, body);
    if db' != db {
      AppendKeepsNumbered(db.transcripts, id, db'.transcripts[|db.transcripts|].content);
      RowChangeKeepsValid(db, db', id);
    }
  }

  lemma CaptureKeepsValid(db: Db, id: string, body: Body, ts: int)
    requires Valid(db) && id in db.calls && body.FieldBody?
    ensures Valid(Capture(db, id, body, ts))
  {
    RowChangeKeepsValid(db, Capture(db, id, body, ts), id);
  }

  lemma ApplyKeepsValid(db: Db, id: string, body: Body, ts: int)
    requires Valid(db) && id in db.calls && !body.OpenedBody?
    ensures Valid(Apply(db, id, body, ts))
  {
    match body
    case StateBody(_, _, _, _) => EnterNodeKeepsValid(db, id, body, ts);
    case TranscriptBody(_, _, _, _, _) => TranscribeKeepsValid(db, id, body);
    case FieldBody(_, _, _) => CaptureKeepsValid(db, id, body, ts);
    case ClosedBody(_, _, _, _, _, _) => CloseKeepsValid(db, id, body, ts);
  }

  lemma DisposeKeepsValid(db: Db, id: string, disposition: string)
    requires Valid(db)
    ensures Valid(Dispose(db, id, disposition).0)
  {
    var db' := Dispose(db, id, disposition).0;
    if Dispose(db, id, disposition).1 {
      var more := db'.outbox[|db.outbox|..];
      assert db'.outbox == db.outbox + more;
      forall c ensures CompletedCount(db'.outbox, c) == CompletedCount(db.outbox, c) {
        CompletedCountAppend(db.outbox, more, c);
        NoneCompleted(more, c);
      }
      RowChangeKeepsValid(db, db', id);
    }
  }

  lemma {:induction false} NoneCompleted(events: seq<OutboxEvent>, id: string)
    requires forall e :: e in events ==> !e.CallCompleted?
    ensures CompletedCount(events, id) == 0
  {
    if events != [] { NoneCompleted(events[..|events| - 1], id); }
  }

  lemma LandingKeepsValid(db: Db, id: string, ext: string, body: Body, ts: int)
    requires Valid(db) && id in db.calls && !body.OpenedBody?
    ensures Valid(Apply(Record(db, id, ext, EventTypeOf(body), ts), id, body, ts))
  {
    RecordKeepsValid(db, id, ext, EventTypeOf(body), ts);
    ApplyKeepsValid(Record(db, id, ext, EventTypeOf(body), ts), id, body, ts);
  }

  lemma DeliveryKeepsValid(db: Db, m: Message, now: int)
    requires Valid(db)
    ensures Valid(Ingest(db, m, now).0)
  {
    if m.Message? && m.callId.Id? && m.externalEventId != "" {
      var id, ext, ts := m.callId.id, m.externalEventId, m.eventTs.GetOr(now);
      if m.body.OpenedBody? {
        OpenKeepsValid(db, id, ext, m.body, ts);
      } else if id in db.calls && (id, ext) !in db.events {
        LandingKeepsValid(db, id, ext, m.body, ts);
        assert Ingest(db, m, now).0 == Apply(Record(db, id, ext, EventTypeOf(m.body), ts), id, m.body, ts);
      } else {
        assert Ingest(db, m, now).0 == db;
      }
    }
  }

  lemma StepKeepsValid(db: Db, s: Step)
    requires Valid(db)
    ensures Valid(Take(db, s))
  {
    match s
    case Operator(id, disposition) => DisposeKeepsValid(db, id, disposition);
    case Deliver(m, now, luck) => DeliveryKeepsValid(db, m, now);
  }

  lemma EmptyIsValid()
    ensures Valid(EMPTY)
  {
  }

  /** Safety over every run of deliveries and operator updates, in any order and with any losses. */
  lemma EveryRunIsValid(trace: seq<Step>)
    ensures Valid(Run(EMPTY, trace))
  {
    EmptyIsValid();
    forall db, s | Valid(db) ensures Valid(Take(db, s)) { StepKeepsValid(db, s); }
    AlwaysKept(Take, Valid, EMPTY, trace);
  }

  // ----- closed calls stay closed -----

  ghost predicate SameOutcome(a: CallRow, b: CallRow) {
    && a.status == b.status && a.endedAt == b.endedAt
    && a.durationSeconds == b.durationSeconds && a.talkTimeSeconds == b.talkTimeSeconds
    && a.disposition == b.disposition && a.vicidialStatus == b.vicidialStatus
  }

  /** What a step can do to the calls that exist: none disappears, none changes its channel, and
      the outcome of a closed one stays. */
  ghost predicate CallsKept(before: map<string, CallRow>, after: map<string, CallRow>) {
    forall c :: c in before ==>
      && c in after
      && after[c].channelId == before[c].channelId
      && (Terminal(before[c].status) ==> SameOutcome(after[c], before[c]))
  }

  lemma CloseKeepsCalls(db: Db, id: string, body: Body, ts: int)
    requires id in db.calls && body.ClosedBody?
    ensures CallsKept(db.calls, Close(db, id, body, ts).calls)
  {
    if !Terminal(db.calls[id].status) {
      var call := ClosedCall(db.calls[id], body, ts);
      assert call.channelId == db.calls[id].channelId;
      assert Close(db, id, body, ts).calls == db.calls[id := call];
    }
  }

  lemma CaptureKeepsCalls(db: Db, id: string, body: Body, ts: int)
    requires id in db.calls && body.FieldBody?
    ensures CallsKept(db.calls, Capture(db, id, body, ts).calls) && Capture(db, id, body, ts).events == db.events
  {
  }

  lemma ApplyKeepsCalls(db: Db, id: string, body: Body, ts: int)
    requires id in db.calls && !body.OpenedBody?
    ensures CallsKept(db.calls, Apply(db, id, body, ts).calls)
    ensures Apply(db, id, body, ts).events == db.events
  {
    if body.ClosedBody? { CloseKeepsCalls(db, id, body, ts); }
    if body.FieldBody? { CaptureKeepsCalls(db, id, body, ts); }
  }

  lemma DisposeKeepsCalls(db: Db, id: string, disposition: string)
    ensures CallsKept(db.calls, Dispose(db, id, disposition).0.calls)
    ensures Dispose(db, id, disposition).0.events == db.events
  {
  }

  lemma OpenKeepsCalls(db: Db, id: string, ext: string, body: Body, ts: int)
    requires body.OpenedBody?
    ensures CallsKept(db.calls, Open(db, id, ext, body, ts).0.calls)
    ensures db.events.Keys <= Open(db, id, ext, body, ts).0.events.Keys
  {
  }

  lemma LandingKeepsCalls(db: Db, id: string, ext: string, body: Body, ts: int)
    requires id in db.calls && !body.OpenedBody?
    ensures var after := Apply(Record(db, id, ext, EventTypeOf(body), ts), id, body, ts);
            CallsKept(db.calls, after.calls) && db.events.Keys <= after.events.Keys
  {
    ApplyKeepsCalls(Record(db, id, ext, EventTypeOf(body), ts), id, body, ts);
  }

  lemma SameCallsKept(calls: map<string, CallRow>)
    ensures CallsKept(calls, calls)
  {
  }

  lemma DeliveryKeepsCalls(db: Db, m: Message, now: int)
    ensures CallsKept(db.calls, Ingest(db, m, now).0.calls) && db.events.Keys <= Ingest(db, m, now).0.events.Keys
  {
    SameCallsKept(db.calls);
    if m.Message? && m.callId.Id? && m.externalEventId != "" {
      var id, ext, ts := m.callId.id, m.externalEventId, m.eventTs.GetOr(now);
      if m.body.OpenedBody? {
        OpenKeepsCalls(db, id, ext, m.body, ts);
      } else if id in db.calls && (id, ext) !in db.events {
        LandingKeepsCalls(db, id, ext, m.body, ts);
        assert Ingest(db, m, now).0 == Apply(Record(db, id, ext, EventTypeOf(m.body), ts), id, m.body, ts);
      } else {
        assert Ingest(db, m, now).0 == db;
      }
    }
  }

  lemma StepKeepsCalls(db: Db, s: Step)
    ensures CallsKept(db.calls, Take(db, s).calls) && db.events.Keys <= Take(db, s).events.Keys
  {
    match s
    case Operator(id, disposition) => DisposeKeepsCalls(db, id, disposition);
    case Deliver(m, now, luck) =>
      SameCallsKept(db.calls);
      DeliveryKeepsCalls(db, m, now);
  }

  ghost predicate ClosedWith(db: Db, id: string, outcome: CallRow) {
    id in db.calls && Terminal(db.calls[id].status) && SameOutcome(db.calls[id], outcome)
  }

  /** Once closed, a call never reopens and its outcome never changes. */
  lemma ClosedForGood(db: Db, trace: seq<Step>, id: string)
    requires id in db.calls && Terminal(db.calls[id].status)
    ensures id in Run(db, trace).calls && SameOutcome(Run(db, trace).calls[id], db.calls[id])
  {
    var inv := (d: Db) => ClosedWith(d, id, db.calls[id]);
    forall d, s | inv(d) ensures inv(Take(d, s)) { StepKeepsCalls(d, s); }
    AlwaysKept(Take, inv, db, trace);
  }

  // ----- at-least-once delivery, effectively-once effects -----

  /** Delivering the message again would change nothing. */
  ghost predicate Absorbed(db: Db, m: Message) {
    || m.Poison?
    || m.callId.NoId? || (m.callId.Id? && m.externalEventId == "")
    || (m.callId.Id? &&
        if m.body.OpenedBody? then
          if m.body.channelId == "" then m.callId.id in db.calls
          else exists c :: OnChannel(db, c, m.body.channelId) && (c, m.externalEventId) in db.events
        else m.callId.id in db.calls && (m.callId.id, m.externalEventId) in db.events)
  }

  lemma OpenIsAbsorbed(db: Db, id: string, ext: string, body: Body, ts: int)
    requires Valid(db) && body.OpenedBody? && Open(db, id, ext, body, ts).1 == Handled
    ensures var db' := Open(db, id, ext, body, ts).0;
            if body.channelId == "" then id in db'.calls
            else exists c :: OnChannel(db', c, body.channelId) && (c, ext) in db'.events
  {
    var ch, db' := body.channelId, Open(db, id, ext, body, ts).0;
    if ch != "" {
      if c :| OnChannel(db, c, ch) {
        assert OnChannel(db', c, ch) && (c, ext) in db'.events;
      } else {
        assert OnChannel(db', id, ch) && (id, ext) in db'.events;
      }
    }
  }

  lemma AppliedIsAbsorbed(db: Db, s: Step)
    requires Valid(db) && Applied(db, s)
    ensures Absorbed(Take(db, s), s.message)
  {
    var m := s.message;
    OutcomeIgnoresClock(db, m, s.now);
    if m.Message? && m.callId.Id? && m.externalEventId != "" {
      var id, ext, ts := m.callId.id, m.externalEventId, m.eventTs.GetOr(s.now);
      if m.body.OpenedBody? {
        OpenIsAbsorbed(db, id, ext, m.body, ts);
      } else if (id, ext) !in db.events {
        ApplyKeepsCalls(Record(db, id, ext, EventTypeOf(m.body), ts), id, m.body, ts);
      }
    }
  }

  lemma AbsorbedIsNoOp(db: Db, m: Message, now: int)
    requires Valid(db) && Absorbed(db, m)
    ensures Ingest(db, m, now).0 == db
  {
    if m.Message? && m.callId.Id? && m.externalEventId != "" && m.body.OpenedBody? && m.body.channelId != "" {
      var c :| OnChannel(db, c, m.body.channelId) && (c, m.externalEventId) in db.events;
      assert forall d :: OnChannel(db, d, m.body.channelId) ==> d == c;
    }
  }

  lemma StepKeepsAbsorbed(db: Db, s: Step, m: Message)
    requires Absorbed(db, m)
    ensures Absorbed(Take(db, s), m)
  {
    StepKeepsCalls(db, s);
    if m.Message? && m.callId.Id? && m.externalEventId != "" && m.body.OpenedBody? && m.body.channelId != "" {
      var c :| OnChannel(db, c, m.body.channelId) && (c, m.externalEventId) in db.events;
      assert OnChannel(Take(db, s), c, m.body.channelId);
    }
  }

  /** The message a step delivers. */
  function MessageIn(s: Step): Option<Message> {
    if s.Deliver? then Some(s.message) else None
  }

  ghost predicate AbsorbedIn(db: Db, m: Option<Message>) {
    m.Some? && Absorbed(db, m.value)
  }

  lemma IngestIsAbsorbing()
    ensures Absorbing(Take, Valid, MessageIn, Applied, AbsorbedIn)
  {
    forall db, s | Valid(db) ensures Valid(Take(db, s)) { StepKeepsValid(db, s); }
    forall db, s | Valid(db) && Applied(db, s) ensures AbsorbedIn(Take(db, s), MessageIn(s)) {
      AppliedIsAbsorbed(db, s);
    }
    forall db, s, m | Valid(db) && AbsorbedIn(db, m) ensures AbsorbedIn(Take(db, s), m) {
      StepKeepsAbsorbed(db, s, m.value);
    }
    forall db, s | Valid(db) && AbsorbedIn(db, MessageIn(s)) ensures Take(db, s) == db {
      AbsorbedIsNoOp(db, s.message, s.now);
    }
  }

  /** Step `i` delivers again, at whatever time and with whatever luck, a message whose
      transaction had committed earlier in the same run. */
  ghost predicate Redelivery(trace: seq<Step>, i: int) {
    Repeats(Take, MessageIn, Applied, EMPTY, trace, i)
  }

  /** Redeliveries inserted anywhere in any trace leave every table and the outbox unchanged. */
  lemma EffectivelyOnce(trace: seq<Step>, keep: seq<bool>)
    requires |trace| == |keep|
    requires forall i :: 0 <= i < |trace| && !keep[i] ==> Redelivery(trace, i)
    ensures Run(EMPTY, Kept(trace, keep)) == Run(EMPTY, trace)
  {
    EmptyIsValid();
    IngestIsAbsorbing();
    RepeatsDoNothing(Take, Valid, MessageIn, Applied, AbsorbedIn, EMPTY, trace, keep);
  }

  /** The same for one redelivery at the end of a trace. */
  lemma RedeliveryIsNoOp(trace: seq<Step>)
    requires trace != [] && Redelivery(trace, |trace| - 1)
    ensures Run(EMPTY, trace) == Run(EMPTY, trace[..|trace| - 1])
  {
    EmptyIsValid();
    IngestIsAbsorbing();
    RepeatIsNoOp(Take, Valid, MessageIn, Applied, AbsorbedIn, EMPTY, trace);
  }

  /** A message whose transaction committed in a run is absorbed at its end. */
  lemma AppliedStaysAbsorbed(trace: seq<Step>, j: nat)
    requires HappensAt(Take, Applied, EMPTY, trace, j)
    ensures Absorbed(Run(EMPTY, trace), trace[j].message)
  {
    EmptyIsValid();
    IngestIsAbsorbing();
    assert trace[..|trace|] == trace;
    AbsorbedEverAfter(Take, Valid, MessageIn, Applied, AbsorbedIn, EMPTY, trace, j, |trace|);
    assert AbsorbedIn(Run(EMPTY, trace), MessageIn(trace[j]));
  }
}
