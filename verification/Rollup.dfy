/** The rollup worker: daily aggregates of the calls table, folded window by window. */
module Rollup {
  import opened Prelude

  const EPOCH := 0
  const UNSET := "_unassigned"
  const UNSET_ID := "00000000-0000-0000-0000-000000000000"

  /** The columns of a call that the aggregates read; `startedAt` is in seconds since the epoch. */
  datatype CallFact = CallFact(
    startedAt: int,
    tenantId: Option<string>,
    campaignId: Option<string>,
    scriptVersionId: Option<string>,
    agentAlias: Option<string>,
    leadSource: Option<string>,
    disqualificationReason: Option<string>,
    answered: bool,
    hasDisposition: bool,
    qualified: bool,
    disqualified: bool,
    transferred: bool,
    hasVerifier: bool,
    qaAutoFail: bool,
    durationSeconds: Option<int>,
    talkTimeSeconds: Option<int>)

  /** The windowed aggregates; each table keeps some of the columns of `AggRow`. */
  datatype Aggregate = Campaign | ScriptVersion | Source | Bot | Compliance

  const AGGREGATES := [Campaign, ScriptVersion, Source, Bot, Compliance]

  datatype Key = Key(day: int, tenant: string, labels: seq<string>)

  datatype AggRow = AggRow(
    totalCalls: nat,
    answered: nat,
    contacted: nat,
    qualified: nat,
    transferred: nat,
    verifierAccepted: nat,
    disqualified: nat,
    optedOut: nat,
    qaAutofail: nat,
    avgDuration: Option<real>,
    avgTalkTime: Option<real>)

  type Table = map<Key, AggRow>

  function DayOf(t: int): int {
    t / 86400
  }

  /** Midnight at the start of a day. */
  function DayStart(d: int): int {
    86400 * d
  }

  function LabelsOf(agg: Aggregate, c: CallFact): seq<string> {
    match agg
    case Campaign => [c.campaignId.GetOr(UNSET_ID)]
    case ScriptVersion => [c.scriptVersionId.GetOr(UNSET_ID)]
    case Source => [c.leadSource.GetOr(UNSET)]
    case Bot => [c.agentAlias.GetOr(UNSET)]
    case Compliance =>
      [c.campaignId.GetOr(UNSET_ID),
       if c.disqualificationReason.GetOr("") != "" then c.disqualificationReason.value else UNSET]
  }

  function KeyOf(agg: Aggregate, c: CallFact): Key {
    Key(DayOf(c.startedAt), c.tenantId.GetOr(UNSET), LabelsOf(agg, c))
  }

  // ----- one statement: INSERT ... SELECT ... GROUP BY ... ON CONFLICT DO UPDATE -----

  /** The calls of one group that started in `[lo, hi)`. */
  function GroupIn(agg: Aggregate, calls: seq<CallFact>, key: Key, lo: int, hi: int): seq<CallFact> {
    if calls == [] then [] else
    var rest := GroupIn(agg, calls[1..], key, lo, hi);
    if lo <= calls[0].startedAt < hi && KeyOf(agg, calls[0]) == key then [calls[0]] + rest else rest
  }

  datatype Totals = Totals(
    calls: nat, answered: nat, contacted: nat, qualified: nat, transferred: nat, verifierAccepted: nat,
    disqualified: nat, optedOut: nat, qaAutofail: nat,
    durationSum: int, durationCount: nat, talkSum: int, talkCount: nat)

  function One(b: bool): nat {
    if b then 1 else 0
  }

  function TotalsOf(calls: seq<CallFact>): Totals {
    if calls == [] then Totals(0, 0, 0, 0, 0, 0, 0, 0, 0, 0, 0, 0, 0) else
    var c, t := calls[0], TotalsOf(calls[1..]);
    Totals(
      t.calls + 1, t.answered + One(c.answered), t.contacted + One(c.hasDisposition), t.qualified + One(c.qualified),
      t.transferred + One(c.transferred), t.verifierAccepted + One(c.hasVerifier), t.disqualified + One(c.disqualified),
      t.optedOut + One(c.disqualificationReason == Some("opted_out")), t.qaAutofail + One(c.qaAutoFail),
      t.durationSum + c.durationSeconds.GetOr(0), t.durationCount + One(c.durationSeconds.Some?),
      t.talkSum + c.talkTimeSeconds.GetOr(0), t.talkCount + One(c.talkTimeSeconds.Some?))
  }

  /** The average over the values that are present; NULL when there is none. */
  function Average(sum: int, count: nat): Option<real> {
    if count == 0 then None else Some(sum as real / count as real)
  }

  function Summarize(calls: seq<CallFact>): AggRow {
    var t := TotalsOf(calls);
    AggRow(t.calls, t.answered, t.contacted, t.qualified, t.transferred, t.verifierAccepted, t.disqualified,
           t.optedOut, t.qaAutofail, Average(t.durationSum, t.durationCount), Average(t.talkSum, t.talkCount))
  }

  function KeysIn(agg: Aggregate, calls: seq<CallFact>, lo: int, hi: int): set<Key> {
    set c | c in calls && lo <= c.startedAt < hi :: KeyOf(agg, c)
  }

  function GroupBy(agg: Aggregate, calls: seq<CallFact>, lo: int, hi: int): Table {
    map k | k in KeysIn(agg, calls, lo, hi) :: Summarize(GroupIn(agg, calls, k, lo, hi))
  }

  /** A group's new row replaces its old one; rows of other groups stay. */
  function Upsert(table: Table, agg: Aggregate, calls: seq<CallFact>, lo: int, hi: int): Table {
    table + GroupBy(agg, calls, lo, hi)
  }

  // ----- the worker -----

  datatype State = State(tables: map<Aggregate, Table>, watermarks: map<Aggregate, int>)

  function TableOf(s: State, agg: Aggregate): Table {
    if agg in s.tables then s.tables[agg] else map[]
  }

  function WatermarkOf(s: State, agg: Aggregate): int {
    if agg in s.watermarks then s.watermarks[agg] else EPOCH
  }

  /** Every aggregate upserted over one window. */
  ghost predicate Folded(before: State, after: State, calls: seq<CallFact>, lo: int, hi: int) {
    && after.watermarks == before.watermarks
    && forall agg :: TableOf(after, agg) == Upsert(TableOf(before, agg), agg, calls, lo, hi)
  }

  /** Every aggregate upserted from its own watermark to `upto`, and the watermark moved there. */
  ghost predicate Advanced(before: State, after: State, calls: seq<CallFact>, upto: int) {
    forall agg :: Reached(before, after, calls, upto, agg)
  }

  ghost predicate Reached(before: State, after: State, calls: seq<CallFact>, upto: int, agg: Aggregate) {
    && TableOf(after, agg) == Upsert(TableOf(before, agg), agg, calls, WatermarkOf(before, agg), upto)
    && WatermarkOf(after, agg) == upto
  }

  ghost predicate Untouched(before: State, after: State, agg: Aggregate) {
    TableOf(after, agg) == TableOf(before, agg) && WatermarkOf(after, agg) == WatermarkOf(before, agg)
  }

  lemma AllAggregates(agg: Aggregate)
    ensures agg in AGGREGATES
  {
    match agg
    case Campaign => assert AGGREGATES[0] == agg;
    case ScriptVersion => assert AGGREGATES[1] == agg;
    case Source => assert AGGREGATES[2] == agg;
    case Bot => assert AGGREGATES[3] == agg;
    case Compliance => assert AGGREGATES[4] == agg;
  }

  lemma WatermarkMoved(before: State, folded: State, after: State, calls: seq<CallFact>, upto: int, agg: Aggregate)
    requires folded.watermarks == before.watermarks && after == folded.(watermarks := before.watermarks[agg := upto])
    requires TableOf(folded, agg) == Upsert(TableOf(before, agg), agg, calls, WatermarkOf(before, agg), upto)
    requires forall other :: other != agg ==> TableOf(folded, other) == TableOf(before, other)
    ensures Reached(before, after, calls, upto, agg)
    ensures forall other :: other != agg ==> Untouched(before, after, other)
  {
    assert TableOf(after, agg) == TableOf(folded, agg) && WatermarkOf(after, agg) == upto;
    forall other | other != agg ensures Untouched(before, after, other) {
      assert TableOf(after, other) == TableOf(folded, other);
    }
  }

  class RollupWorker {
    var calls: seq<CallFact>
    var tables: map<Aggregate, Table>
    var watermarks: map<Aggregate, int>

    constructor (calls: seq<CallFact>)
      ensures this.calls == calls && Tables() == State(map[], map[])
    {
      this.calls, tables, watermarks := calls, map[], map[];
    }

    ghost function Tables(): State
      reads this
    {
      State(tables, watermarks)
    }

    /** One statement: the upsert of one aggregate over a window. */
    method UpsertWindow(agg: Aggregate, lo: int, hi: int)
      modifies this`tables
      ensures TableOf(Tables(), agg) == Upsert(TableOf(old(Tables()), agg), agg, calls, lo, hi)
      ensures forall other :: other != agg ==> TableOf(Tables(), other) == TableOf(old(Tables()), other)
    {
      var table := if agg in tables then tables[agg] else map[];
      tables := tables[agg := Upsert(table, agg, calls, lo, hi)];
    }

    method Fold(lo: int, hi: int)
      modifies this`tables
      ensures Folded(old(Tables()), Tables(), calls, lo, hi)
    {
      for i := 0 to |AGGREGATES|
        invariant forall agg :: agg in AGGREGATES[..i] ==>
          TableOf(Tables(), agg) == Upsert(TableOf(old(Tables()), agg), agg, calls, lo, hi)
        invariant forall agg :: agg !in AGGREGATES[..i] ==> TableOf(Tables(), agg) == TableOf(old(Tables()), agg)
      {
        assert AGGREGATES[..i + 1] == AGGREGATES[..i] + [AGGREGATES[i]];
        assert AGGREGATES[i] !in AGGREGATES[..i];
        ghost var before := Tables();
        UpsertWindow(AGGREGATES[i], lo, hi);
        assert forall agg :: agg in AGGREGATES[..i] ==> TableOf(Tables(), agg) == TableOf(before, agg);
      }
      assert AGGREGATES[..|AGGREGATES|] == AGGREGATES;
      forall agg ensures agg in AGGREGATES { AllAggregates(agg); }
    }

    method Run(upto: int)
      modifies this`tables, this`watermarks
      ensures Advanced(old(Tables()), Tables(), calls, upto)
    {
      ghost var start := Tables();
      for i := 0 to |AGGREGATES|
        invariant forall agg :: agg in AGGREGATES[..i] ==> Reached(start, Tables(), calls, upto, agg)
        invariant forall agg :: agg !in AGGREGATES[..i] ==> Untouched(start, Tables(), agg)
      {
        var agg := AGGREGATES[i];
        assert AGGREGATES[..i + 1] == AGGREGATES[..i] + [agg];
        assert agg !in AGGREGATES[..i];
        ghost var before := Tables();
        assert Untouched(start, before, agg);
        Advance(agg, upto);
        forall other | other in AGGREGATES[..i + 1] ensures Reached(start, Tables(), calls, upto, other) {
          if other != agg { assert Reached(start, before, calls, upto, other) && Untouched(before, Tables(), other); }
        }
        forall other | other !in AGGREGATES[..i + 1] ensures Untouched(start, Tables(), other) {
          assert Untouched(start, before, other) && Untouched(before, Tables(), other);
        }
      }
      assert AGGREGATES[..|AGGREGATES|] == AGGREGATES;
      forall agg ensures agg in AGGREGATES { AllAggregates(agg); }
    }

    /** One turn of the loop: from the stored watermark to `upto`, then move the watermark. */
    method Advance(agg: Aggregate, upto: int)
      modifies this`tables, this`watermarks
      ensures Reached(old(Tables()), Tables(), calls, upto, agg)
      ensures forall other :: other != agg ==> Untouched(old(Tables()), Tables(), other)
    {
      ghost var before := Tables();
      var windowStart := if agg in watermarks then watermarks[agg] else EPOCH;
      UpsertWindow(agg, windowStart, upto);
      ghost var folded := Tables();
      watermarks := watermarks[agg := upto];
      WatermarkMoved(before, folded, Tables(), calls, upto, agg);
    }

    method Backfill(day: int)
      modifies this`tables
      ensures Folded(old(Tables()), Tables(), calls, DayStart(day), DayStart(day + 1))
    {
      var windowStart := DayStart(day);
      assert windowStart + 86400 == DayStart(day + 1);
      Fold(windowStart, windowStart + 86400);
    }
  }
}
