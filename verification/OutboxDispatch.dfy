/** The transactional outbox and its dispatcher: a first-in first-out queue in which a failing
    row blocks the rows behind it. */
module OutboxDispatch {
  import opened Prelude
  import opened Transitions

  datatype Json = Text(s: string) | Number(n: int)

  type Payload = map<string, Json>

  /** A row is known by its position: rows are only appended, with increasing `created_at`. */
  datatype OutboxRow = OutboxRow(
    eventType: string, payload: Payload, seqNo: Option<int>, dispatchedAt: Option<int>, attempts: nat)

  datatype Sent = Sent(eventType: string, payload: Payload)

  datatype State = State(rows: seq<OutboxRow>, sent: seq<Sent>)

  const LIMIT := 100

  /** What is sent for a row: its payload, with the sequence number unless it has one. */
  function MessageOf(row: OutboxRow): Sent {
    Sent(row.eventType,
         if row.seqNo.Some? && "seq" !in row.payload
         then row.payload["seq" := Number(row.seqNo.value)] else row.payload)
  }

  /** The positions of the undispatched rows from `from` on, oldest first, at most `limit`. */
  function Pending(rows: seq<OutboxRow>, start: nat, limit: nat): (p: seq<nat>)
    requires start <= |rows|
    ensures forall k :: 0 <= k < |p| ==> start <= p[k] < |rows| && rows[p[k]].dispatchedAt.None?
    decreases |rows| - start
  {
    if start == |rows| || limit == 0 then []
    else if rows[start].dispatchedAt.None? then [start] + Pending(rows, start + 1, limit - 1)
    else Pending(rows, start + 1, limit)
  }

  /** One tick over the selected rows: `fails(i)` tells whether sending row `i` raises. */
  function Dispatch(s: State, batch: seq<nat>, fails: nat -> bool, now: int): (State, nat)
    requires forall k :: 0 <= k < |batch| ==> batch[k] < |s.rows|
    decreases |batch|
  {
    if batch == [] then (s, 0) else
    var i := batch[0];
    var row := s.rows[i];
    if fails(i) then (s.(rows := s.rows[i := row.(attempts := row.attempts + 1)]), 0)
    else
      var s' := State(s.rows[i := row.(dispatchedAt := Some(now))], s.sent + [MessageOf(row)]);
      var (s'', count) := Dispatch(s', batch[1..], fails, now);
      (s'', count + 1)
  }

  function Tick(s: State, fails: nat -> bool, now: int): (State, nat) {
    Dispatch(s, Pending(s.rows, 0, LIMIT), fails, now)
  }

  function Insert(s: State, eventType: string, payload: Payload, seqNo: Option<int>): State {
    s.(rows := s.rows + [OutboxRow(eventType, payload, seqNo, None, 0)])
  }

  class OutboxDispatcher {
    var rows: seq<OutboxRow>
    var sent: seq<Sent>

    constructor ()
      ensures Queue() == State([], [])
    {
      rows, sent := [], [];
    }

    ghost function Queue(): State
      reads this
    {
      State(rows, sent)
    }

    method WriteOutbox(eventType: string, payload: Payload, seqNo: Option<int>)
      modifies this
      ensures Queue() == Insert(old(Queue()), eventType, payload, seqNo)
    {
      rows := rows + [OutboxRow(eventType, payload, seqNo, None, 0)];
    }

    method RunTick(fails: nat -> bool, now: int) returns (dispatched: nat)
      modifies this
      ensures (Queue(), dispatched) == Tick(old(Queue()), fails, now)
    {
      var batch := Pending(rows, 0, LIMIT);
      if batch == [] { return 0; }
      dispatched := 0;
      ghost var goal := Tick(old(Queue()), fails, now);
      var k := 0;
      while k < |batch|
        invariant 0 <= k <= |batch| && |rows| == |old(rows)|
        invariant var (s, count) := Dispatch(Queue(), batch[k..], fails, now); (s, count + dispatched) == goal
      {
        var i := batch[k];
        var row := rows[i];
        assert batch[k..][0] == i && batch[k..][1..] == batch[k + 1..];
        var payload := row.payload;
        if row.seqNo.Some? && "seq" !in payload { payload := payload["seq" := Number(row.seqNo.value)]; }
        if fails(i) {
          rows := rows[i := row.(attempts := row.attempts + 1)];
          break;
        }
        sent := sent + [Sent(row.eventType, payload)];
        rows := rows[i := row.(dispatchedAt := Some(now))];
        dispatched := dispatched + 1;
        k := k + 1;
      }
    }
  }

  // ----- runs -----

  datatype Event = Write(eventType: string, payload: Payload, seqNo: Option<int>) | TickAt(fails: nat -> bool, now: int)

  ghost function Take(s: State, e: Event): State {
    match e
    case Write(t, p, n) => Insert(s, t, p, n)
    case TickAt(fails, now) => Tick(s, fails, now).0
  }

  ghost function Run(s: State, events: seq<Event>): State {
    RunOf(Take, s, events)
  }

  ghost function Messages(rows: seq<OutboxRow>): seq<Sent> {
    seq(|rows|, i requires 0 <= i < |rows| => MessageOf(rows[i]))
  }

  /** The first `k` rows have been dispatched and no others, and what was sent is exactly their
      messages, once each and in order. */
  ghost predicate DispatchedPrefix(s: State, k: nat) {
    && k <= |s.rows|
    && (forall i :: 0 <= i < |s.rows| ==> (s.rows[i].dispatchedAt.Some? <==> i < k))
    && s.sent == Messages(s.rows)[..k]
  }

  function Min(a: nat, b: nat): nat {
    if a <= b then a else b
  }

  ghost function Interval(a: nat, b: nat): seq<nat>
    requires a <= b
  {
    seq(b - a, i requires 0 <= i < b - a => a + i)
  }

  lemma {:induction false} PendingIsWindow(s: State, k: nat, start: nat, limit: nat)
    requires DispatchedPrefix(s, k) && start <= |s.rows|
    ensures var lo := if start <= k then k else start;
            Pending(s.rows, start, limit) == Interval(lo, Min(lo + limit, |s.rows|))
    decreases |s.rows| - start
  {
    if start < |s.rows| && limit > 0 {
      PendingIsWindow(s, k, start + 1, if start < k then limit else limit - 1);
    }
  }

  /** How far a tick gets: up to the first row that fails, at most to the end of the window. */
  ghost predicate Progress(s: State, k: nat, end: nat, fails: nat -> bool, k': nat) {
    && k <= k' <= end <= |s.rows|
    && (forall i: nat :: k <= i < k' ==> !fails(i))
    && (k' < end ==> fails(k'))
  }

  lemma SendOne(s: State, k: nat, now: int)
    requires DispatchedPrefix(s, k) && k < |s.rows|
    ensures var row := s.rows[k];
            DispatchedPrefix(State(s.rows[k := row.(dispatchedAt := Some(now))], s.sent + [MessageOf(row)]), k + 1)
  {
    var row := s.rows[k];
    var rows := s.rows[k := row.(dispatchedAt := Some(now))];
    assert Messages(rows) == Messages(s.rows);
    assert Messages(rows)[..k + 1] == Messages(s.rows)[..k] + [MessageOf(row)];
  }

  /** Row `i` is dispatched now if it is one of `lo..hi`, has one more attempt if it is the one that
      failed, and is otherwise as it was. */
  ghost predicate RowTicked(
      before: seq<OutboxRow>, after: seq<OutboxRow>, lo: int, hi: int, failed: int, now: int, i: int) {
    0 <= i < |before| == |after| ==>
      after[i] == before[i].(
        dispatchedAt := if lo <= i < hi then Some(now) else before[i].dispatchedAt,
        attempts := before[i].attempts + if i == failed then 1 else 0)
  }

  ghost predicate RowsTicked(before: seq<OutboxRow>, after: seq<OutboxRow>, lo: int, hi: int, failed: int, now: int) {
    |after| == |before| && forall i :: RowTicked(before, after, lo, hi, failed, now, i)
  }

  lemma FailOne(s: State, k: nat, now: int)
    requires DispatchedPrefix(s, k) && k < |s.rows|
    ensures var row := s.rows[k];
            var rows := s.rows[k := row.(attempts := row.attempts + 1)];
            DispatchedPrefix(s.(rows := rows), k) && RowsTicked(s.rows, rows, k, k, k, now)
  {
    var row := s.rows[k];
    assert Messages(s.rows[k := row.(attempts := row.attempts + 1)]) == Messages(s.rows);
  }

  lemma TickedThenTicked(
      a: seq<OutboxRow>, b: seq<OutboxRow>, c: seq<OutboxRow>, lo: int, mid: int, hi: int, failed: int, now: int)
    requires lo <= mid <= hi && RowsTicked(a, b, lo, mid, -1, now) && RowsTicked(b, c, mid, hi, failed, now)
    ensures RowsTicked(a, c, lo, hi, failed, now)
  {
    forall i ensures RowTicked(a, c, lo, hi, failed, now, i) {
      assert RowTicked(a, b, lo, mid, -1, now, i) && RowTicked(b, c, mid, hi, failed, now, i);
    }
  }

  lemma {:induction false} DispatchWindow(s: State, k: nat, end: nat, fails: nat -> bool, now: int) returns (k': nat)
    requires DispatchedPrefix(s, k) && k <= end <= |s.rows|
    ensures Progress(s, k, end, fails, k')
    ensures var (s', count) := Dispatch(s, Interval(k, end), fails, now);
            && count == k' - k
            && DispatchedPrefix(s', k')
            && RowsTicked(s.rows, s'.rows, k, k', if k' < end then k' else -1, now)
    decreases end - k
  {
    if k == end {
      k' := k;
    } else {
      var row := s.rows[k];
      assert Interval(k, end)[0] == k && Interval(k, end)[1..] == Interval(k + 1, end);
      if fails(k) {
        k' := k;
        FailOne(s, k, now);
      } else {
        var next := State(s.rows[k := row.(dispatchedAt := Some(now))], s.sent + [MessageOf(row)]);
        SendOne(s, k, now);
        k' := DispatchWindow(next, k + 1, end, fails, now);
        TickedThenTicked(s.rows, next.rows, Dispatch(next, Interval(k + 1, end), fails, now).0.rows, k, k + 1, k',
                         if k' < end then k' else -1, now);
      }
    }
  }

  /** One tick: it sends the oldest undispatched rows, at most a hundred, in order, and stops at
      the first that fails, which alone gains an attempt; every row behind it stays pending. */
  lemma TickEffect(s: State, k: nat, fails: nat -> bool, now: int) returns (k': nat)
    requires DispatchedPrefix(s, k)
    ensures Progress(s, k, Min(k + LIMIT, |s.rows|), fails, k')
    ensures var (s', count) := Tick(s, fails, now);
            && count == k' - k && |s'.rows| == |s.rows|
            && DispatchedPrefix(s', k')
            && RowsTicked(s.rows, s'.rows, k, k', if k' < Min(k + LIMIT, |s.rows|) then k' else -1, now)
  {
    PendingIsWindow(s, k, 0, LIMIT);
    k' := DispatchWindow(s, k, Min(k + LIMIT, |s.rows|), fails, now);
  }

  /** In every run of writes and ticks, with any failures, the log of successful sends is a
      duplicate-free prefix of the outbox in creation order. */
  lemma {:induction false} SendsAreAPrefix(events: seq<Event>) returns (k: nat)
    ensures DispatchedPrefix(Run(State([], []), events), k)
  {
    if events == [] { return 0; }
    var s, e := Run(State([], []), events[..|events| - 1]), events[|events| - 1];
    k := SendsAreAPrefix(events[..|events| - 1]);
    match e
    case Write(t, p, n) =>
      var s' := Insert(s, t, p, n);
      assert Messages(s'.rows)[..k] == Messages(s.rows)[..k];
    case TickAt(fails, now) => k := TickEffect(s, k, fails, now);
  }

  // ----- what is sent -----

  ghost function WritesOf(events: seq<Event>): seq<Event> {
    if events == [] then [] else
    var front, last := WritesOf(events[..|events| - 1]), events[|events| - 1];
    if last.Write? then front + [last] else front
  }

  /** The row is the one a write made, whatever has become of it. */
  ghost predicate RowOf(row: OutboxRow, w: Event) {
    w.Write? && row.eventType == w.eventType && row.payload == w.payload && row.seqNo == w.seqNo
  }

  /** The message has the type and the payload of a write, and its sequence number under "seq" unless
      the payload says something else there. */
  ghost predicate Carries(m: Sent, w: Event) {
    && w.Write? && m.eventType == w.eventType
    && (forall k :: k in w.payload ==> k in m.payload && m.payload[k] == w.payload[k])
    && (forall k :: k in m.payload && k !in w.payload ==> k == "seq" && w.seqNo.Some?)
    && ("seq" !in w.payload && w.seqNo.Some? ==> "seq" in m.payload && m.payload["seq"] == Number(w.seqNo.value))
  }

  lemma MessageCarries(row: OutboxRow, w: Event)
    requires RowOf(row, w)
    ensures Carries(MessageOf(row), w)
  {
  }

  lemma {:induction false} RowsAreWrites(events: seq<Event>)
    ensures var rows, writes := Run(State([], []), events).rows, WritesOf(events);
            |rows| == |writes| && forall i :: 0 <= i < |rows| ==> RowOf(rows[i], writes[i])
  {
    if events != [] {
      var n := |events| - 1;
      var s, e := Run(State([], []), events[..n]), events[n];
      RowsAreWrites(events[..n]);
      if e.TickAt? {
        var k := SendsAreAPrefix(events[..n]);
        var k' := TickEffect(s, k, e.fails, e.now);
        var after := Tick(s, e.fails, e.now).0;
        forall i | 0 <= i < |s.rows| ensures RowOf(after.rows[i], WritesOf(events)[i]) {
          assert RowTicked(s.rows, after.rows, k, k', if k' < Min(k + LIMIT, |s.rows|) then k' else -1, e.now, i);
        }
      }
    }
  }

  /** Over every run, what was sent are the first writes, in order and once each. */
  lemma SentAreTheWrites(events: seq<Event>)
    ensures var sent, writes := Run(State([], []), events).sent, WritesOf(events);
            |sent| <= |writes| && forall i :: 0 <= i < |sent| ==> Carries(sent[i], writes[i])
  {
    var k := SendsAreAPrefix(events);
    var s := Run(State([], []), events);
    RowsAreWrites(events);
    forall i | 0 <= i < |s.sent| ensures Carries(s.sent[i], WritesOf(events)[i]) {
      MessageCarries(s.rows[i], WritesOf(events)[i]);
    }
  }

  /** `t` ticks without a failure, at the given times. */
  ghost function CleanTicks(times: seq<int>): seq<Event> {
    seq(|times|, i requires 0 <= i < |times| => TickAt((_: nat) => false, times[i]))
  }

  /** Failure-free ticks send a hundred rows each until none is left, so ceil(n / 100) of them
      drain n pending rows and fewer do not. */
  lemma {:induction false} CleanTicksDrain(s: State, k: nat, times: seq<int>)
    requires DispatchedPrefix(s, k)
    ensures var s', n := Run(s, CleanTicks(times)), |s.rows|;
            && |s'.rows| == n
            && DispatchedPrefix(s', Min(k + 100 * |times|, n))
            && (k < n ==> (s'.sent == Messages(s'.rows) <==> |times| >= (n - k + 99) / 100))
  {
    if times != [] {
      var t := |times| - 1;
      var ticks := CleanTicks(times);
      assert ticks[..t] == CleanTicks(times[..t]);
      CleanTicksDrain(s, k, times[..t]);
      var before := Run(s, ticks[..t]);
      var k' := TickEffect(before, Min(k + LIMIT * t, |s.rows|), ticks[t].fails, ticks[t].now);
      assert Take(before, ticks[t]) == Run(s, ticks);
    }
    var done, n := Min(k + LIMIT * |times|, |s.rows|), |s.rows|;
    assert |Run(s, CleanTicks(times)).sent| == done;
    if done == n { assert Messages(Run(s, CleanTicks(times)).rows)[..n] == Messages(Run(s, CleanTicks(times)).rows); }
  }
}
