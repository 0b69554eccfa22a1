/** When the daily aggregates agree with a direct group-by of the calls. */
module RollupTheorems {
  import opened Prelude
  import opened Rollup

  /** All calls of a group. */
  ghost function GroupOf(agg: Aggregate, calls: seq<CallFact>, key: Key): seq<CallFact> {
    GroupIn(agg, calls, key, DayStart(key.day), DayStart(key.day + 1))
  }

  /** The group has a call that started in the window. */
  ghost predicate Occurs(agg: Aggregate, calls: seq<CallFact>, key: Key, lo: int, hi: int) {
    exists c :: c in calls && lo <= c.startedAt < hi && KeyOf(agg, c) == key
  }

  lemma KeysAreOccurring(agg: Aggregate, calls: seq<CallFact>, key: Key, lo: int, hi: int)
    ensures key in GroupBy(agg, calls, lo, hi) <==> Occurs(agg, calls, key, lo, hi)
  {
  }

  lemma DayBounds(t: int, d: int)
    ensures DayOf(t) == d <==> DayStart(d) <= t < DayStart(d + 1)
  {
  }

  ghost predicate IsOr(value: Option<string>, named: string, unset: string) {
    value == Some(named) || (value == None && named == unset)
  }

  /** The row a call is counted in: that of its day and tenant, and of its campaign, its script version,
      its lead source, its bot, or its campaign with its disqualification reason. */
  lemma KeyExactly(c: CallFact, k: Key)
    ensures var shared := DayStart(k.day) <= c.startedAt < DayStart(k.day + 1) && IsOr(c.tenantId, k.tenant, UNSET);
            && (KeyOf(Campaign, c) == k <==> shared && |k.labels| == 1 && IsOr(c.campaignId, k.labels[0], UNSET_ID))
            && (KeyOf(ScriptVersion, c) == k <==>
                  shared && |k.labels| == 1 && IsOr(c.scriptVersionId, k.labels[0], UNSET_ID))
            && (KeyOf(Source, c) == k <==> shared && |k.labels| == 1 && IsOr(c.leadSource, k.labels[0], UNSET))
            && (KeyOf(Bot, c) == k <==> shared && |k.labels| == 1 && IsOr(c.agentAlias, k.labels[0], UNSET))
            && (KeyOf(Compliance, c) == k <==>
                  && shared && |k.labels| == 2 && IsOr(c.campaignId, k.labels[0], UNSET_ID)
                  && if c.disqualificationReason in {None, Some("")} then k.labels[1] == UNSET
                     else c.disqualificationReason == Some(k.labels[1]))
  {
    DayBounds(c.startedAt, k.day);
    OneLabel(k.labels, c.campaignId.GetOr(UNSET_ID));
    OneLabel(k.labels, c.scriptVersionId.GetOr(UNSET_ID));
    OneLabel(k.labels, c.leadSource.GetOr(UNSET));
    OneLabel(k.labels, c.agentAlias.GetOr(UNSET));
  }

  lemma OneLabel(labels: seq<string>, only: string)
    ensures labels == [only] <==> |labels| == 1 && labels[0] == only
  {
  }

  /** The members of a group all start on its day. */
  lemma {:induction false} GroupMembers(agg: Aggregate, calls: seq<CallFact>, key: Key, lo: int, hi: int)
    ensures forall c :: c in GroupIn(agg, calls, key, lo, hi) <==>
      c in calls && lo <= c.startedAt < hi && KeyOf(agg, c) == key
  {
    if calls != [] {
      GroupMembers(agg, calls[1..], key, lo, hi);
      assert calls == [calls[0]] + calls[1..];
    }
  }

  /** Two windows that select the same calls of a group give the same group. */
  lemma {:induction false} SameGroup(
      agg: Aggregate, calls: seq<CallFact>, key: Key, lo: int, hi: int, lo': int, hi': int)
    requires forall c :: c in calls && KeyOf(agg, c) == key ==> (lo <= c.startedAt < hi <==> lo' <= c.startedAt < hi')
    ensures GroupIn(agg, calls, key, lo, hi) == GroupIn(agg, calls, key, lo', hi')
  {
    if calls != [] {
      assert calls[0] in calls;
      SameGroup(agg, calls[1..], key, lo, hi, lo', hi');
    }
  }

  /** Restricting the window can only shrink a group, and does so if it loses a call. */
  lemma {:induction false} SmallerGroup(agg: Aggregate, calls: seq<CallFact>, key: Key, lo: int, mid: int, hi: int)
    requires lo <= mid <= hi
    ensures |GroupIn(agg, calls, key, mid, hi)| <= |GroupIn(agg, calls, key, lo, hi)|
    ensures Occurs(agg, calls, key, lo, mid) ==>
      |GroupIn(agg, calls, key, mid, hi)| < |GroupIn(agg, calls, key, lo, hi)|
  {
    if calls != [] {
      SmallerGroup(agg, calls[1..], key, lo, mid, hi);
      if c :| c in calls && lo <= c.startedAt < mid && KeyOf(agg, c) == key {
        if c != calls[0] { assert c in calls[1..]; }
      }
    }
  }

  // ----- the columns of a row -----

  function Count(calls: seq<CallFact>, filter: CallFact -> bool): nat {
    if calls == [] then 0 else Count(calls[1..], filter) + One(filter(calls[0]))
  }

  /** The values of a column that are present. */
  function Present(calls: seq<CallFact>, column: CallFact -> Option<int>): seq<int> {
    if calls == [] then [] else
    var rest := Present(calls[1..], column);
    if column(calls[0]).Some? then [column(calls[0]).value] + rest else rest
  }

  function SumOf(values: seq<int>): int {
    if values == [] then 0 else values[0] + SumOf(values[1..])
  }

  /** The mean of a list of values; none of an empty one. */
  function MeanOf(values: seq<int>): Option<real> {
    if values == [] then None else Some(SumOf(values) as real / |values| as real)
  }

  lemma {:induction false} PresentTotals(calls: seq<CallFact>)
    ensures var t := TotalsOf(calls);
            var durations := Present(calls, (c: CallFact) => c.durationSeconds);
            var talks := Present(calls, (c: CallFact) => c.talkTimeSeconds);
            && t.durationSum == SumOf(durations) && t.durationCount == |durations|
            && t.talkSum == SumOf(talks) && t.talkCount == |talks|
  {
    if calls != [] { PresentTotals(calls[1..]); }
  }

  lemma {:induction false} CountTotals(calls: seq<CallFact>)
    ensures var t := TotalsOf(calls);
            && t.calls == |calls|
            && t.answered == Count(calls, (c: CallFact) => c.answered)
            && t.contacted == Count(calls, (c: CallFact) => c.hasDisposition)
            && t.qualified == Count(calls, (c: CallFact) => c.qualified)
            && t.transferred == Count(calls, (c: CallFact) => c.transferred)
            && t.verifierAccepted == Count(calls, (c: CallFact) => c.hasVerifier)
            && t.disqualified == Count(calls, (c: CallFact) => c.disqualified)
            && t.optedOut == Count(calls, (c: CallFact) => c.disqualificationReason == Some("opted_out"))
            && t.qaAutofail == Count(calls, (c: CallFact) => c.qaAutoFail)
  {
    if calls != [] { CountTotals(calls[1..]); }
  }

  /** Each counter of a group's row is the number of its calls that meet the column's filter, and
      each average the mean of the values that are present. */
  lemma ColumnsAreCounts(calls: seq<CallFact>)
    ensures var row := Summarize(calls);
            && row.totalCalls == |calls|
            && row.answered == Count(calls, (c: CallFact) => c.answered)
            && row.contacted == Count(calls, (c: CallFact) => c.hasDisposition)
            && row.qualified == Count(calls, (c: CallFact) => c.qualified)
            && row.transferred == Count(calls, (c: CallFact) => c.transferred)
            && row.verifierAccepted == Count(calls, (c: CallFact) => c.hasVerifier)
            && row.disqualified == Count(calls, (c: CallFact) => c.disqualified)
            && row.optedOut == Count(calls, (c: CallFact) => c.disqualificationReason == Some("opted_out"))
            && row.qaAutofail == Count(calls, (c: CallFact) => c.qaAutoFail)
            && row.avgDuration == MeanOf(Present(calls, (c: CallFact) => c.durationSeconds))
            && row.avgTalkTime == MeanOf(Present(calls, (c: CallFact) => c.talkTimeSeconds))
  {
    CountTotals(calls);
    PresentTotals(calls);
  }

  // ----- backfill -----

  /** The group has the row of a direct group-by over all calls. */
  ghost predicate Direct(table: Table, agg: Aggregate, calls: seq<CallFact>, key: Key) {
    key in table && table[key] == Summarize(GroupOf(agg, calls, key))
  }

  ghost predicate SameRow(a: Table, b: Table, key: Key) {
    (key in a <==> key in b) && (key in a ==> a[key] == b[key])
  }

  /** One upsert, row by row: a group with calls in the window gets their summary. */
  lemma UpsertReplaces(table: Table, agg: Aggregate, calls: seq<CallFact>, key: Key, lo: int, hi: int)
    requires Occurs(agg, calls, key, lo, hi)
    ensures key in Upsert(table, agg, calls, lo, hi)
    ensures Upsert(table, agg, calls, lo, hi)[key] == Summarize(GroupIn(agg, calls, key, lo, hi))
  {
    KeysAreOccurring(agg, calls, key, lo, hi);
    MergedRow(table, GroupBy(agg, calls, lo, hi), key);
  }

  /** The row of any other group stays. */
  lemma UpsertKeeps(table: Table, agg: Aggregate, calls: seq<CallFact>, key: Key, lo: int, hi: int)
    requires !Occurs(agg, calls, key, lo, hi)
    ensures SameRow(Upsert(table, agg, calls, lo, hi), table, key)
  {
    KeysAreOccurring(agg, calls, key, lo, hi);
    MergedRow(table, GroupBy(agg, calls, lo, hi), key);
  }

  lemma MergedRow(table: Table, groups: Table, key: Key)
    ensures key in groups ==> key in table + groups && (table + groups)[key] == groups[key]
    ensures key !in groups ==> SameRow(table + groups, table, key)
  {
  }

  lemma BackfillReplaces(table: Table, agg: Aggregate, calls: seq<CallFact>, d: int, key: Key)
    requires Occurs(agg, calls, key, DayStart(d), DayStart(d + 1))
    ensures Direct(Upsert(table, agg, calls, DayStart(d), DayStart(d + 1)), agg, calls, key)
  {
    UpsertReplaces(table, agg, calls, key, DayStart(d), DayStart(d + 1));
    OnOneDay(agg, calls, d, key);
    RowIsDirect(Upsert(table, agg, calls, DayStart(d), DayStart(d + 1)), agg, calls, key, DayStart(d), DayStart(d + 1));
  }

  lemma RowIsDirect(table: Table, agg: Aggregate, calls: seq<CallFact>, key: Key, lo: int, hi: int)
    requires lo == DayStart(key.day) && hi == DayStart(key.day + 1)
    requires key in table && table[key] == Summarize(GroupIn(agg, calls, key, lo, hi))
    ensures Direct(table, agg, calls, key)
  {
  }

  /** After folding day `d` every group with a call on that day has exactly the row of a direct
      group-by over all calls, and no other key has changed. */
  lemma BackfillIsExact(before: State, after: State, calls: seq<CallFact>, d: int, agg: Aggregate, key: Key)
    requires Folded(before, after, calls, DayStart(d), DayStart(d + 1))
    ensures key.day == d && GroupOf(agg, calls, key) != [] ==> Direct(TableOf(after, agg), agg, calls, key)
    ensures key.day != d || GroupOf(agg, calls, key) == [] ==> SameRow(TableOf(after, agg), TableOf(before, agg), key)
  {
    GroupIsOccurrence(agg, calls, key, d);
    assert TableOf(after, agg) == FoldOnce(TableOf(before, agg), agg, calls, d);
    if Occurs(agg, calls, key, DayStart(d), DayStart(d + 1)) {
      BackfillReplaces(TableOf(before, agg), agg, calls, d, key);
    } else {
      UpsertKeeps(TableOf(before, agg), agg, calls, key, DayStart(d), DayStart(d + 1));
    }
  }

  lemma GroupIsOccurrence(agg: Aggregate, calls: seq<CallFact>, key: Key, d: int)
    ensures Occurs(agg, calls, key, DayStart(d), DayStart(d + 1)) <==> key.day == d && GroupOf(agg, calls, key) != []
  {
    GroupMembers(agg, calls, key, DayStart(key.day), DayStart(key.day + 1));
    var all := GroupOf(agg, calls, key);
    if c :| c in calls && DayStart(d) <= c.startedAt < DayStart(d + 1) && KeyOf(agg, c) == key {
      DayBounds(c.startedAt, d);
      assert c in all;
    }
    if key.day == d && all != [] { assert all[0] in all; }
  }

  ghost function FoldOnce(table: Table, agg: Aggregate, calls: seq<CallFact>, d: int): Table {
    Upsert(table, agg, calls, DayStart(d), DayStart(d + 1))
  }

  /** Backfilling a day twice is backfilling it once, and days may be backfilled in any order. */
  lemma BackfillsCommute(table: Table, agg: Aggregate, calls: seq<CallFact>, d: int, e: int)
    ensures FoldOnce(FoldOnce(table, agg, calls, d), agg, calls, d) == FoldOnce(table, agg, calls, d)
    ensures FoldOnce(FoldOnce(table, agg, calls, d), agg, calls, e) ==
      FoldOnce(FoldOnce(table, agg, calls, e), agg, calls, d)
  {
    var g, h := GroupBy(agg, calls, DayStart(d), DayStart(d + 1)), GroupBy(agg, calls, DayStart(e), DayStart(e + 1));
    if d != e { DaysAreDisjoint(agg, calls, d, e); }
    DisjointUpdatesCommute(table, g, if d == e then map[] else h);
  }

  lemma DaysAreDisjoint(agg: Aggregate, calls: seq<CallFact>, d: int, e: int)
    requires d != e
    ensures var g := GroupBy(agg, calls, DayStart(d), DayStart(d + 1));
            var h := GroupBy(agg, calls, DayStart(e), DayStart(e + 1));
            g.Keys !! h.Keys
  {
    var g, h := GroupBy(agg, calls, DayStart(d), DayStart(d + 1)), GroupBy(agg, calls, DayStart(e), DayStart(e + 1));
    forall k | k in g.Keys ensures k !in h.Keys {
      KeysAreOccurring(agg, calls, k, DayStart(d), DayStart(d + 1));
      OnOneDay(agg, calls, d, k);
      NotOnOtherDay(agg, calls, e, k);
    }
  }

  lemma DisjointUpdatesCommute(table: Table, g: Table, h: Table)
    requires g.Keys !! h.Keys
    ensures table + g + h == table + h + g && table + g + g == table + g
  {
  }

  lemma NotOnOtherDay(agg: Aggregate, calls: seq<CallFact>, e: int, k: Key)
    requires k.day != e
    ensures k !in GroupBy(agg, calls, DayStart(e), DayStart(e + 1))
  {
    KeysAreOccurring(agg, calls, k, DayStart(e), DayStart(e + 1));
    GroupIsOccurrence(agg, calls, k, e);
  }

  lemma OnOneDay(agg: Aggregate, calls: seq<CallFact>, d: int, k: Key)
    requires Occurs(agg, calls, k, DayStart(d), DayStart(d + 1))
    ensures k.day == d
  {
    var c :| c in calls && DayStart(d) <= c.startedAt < DayStart(d + 1) && KeyOf(agg, c) == k;
    DayBounds(c.startedAt, d);
  }

  // ----- splitting a window -----

  lemma {:induction false} TotalIsLength(calls: seq<CallFact>)
    ensures Summarize(calls).totalCalls == |calls|
  {
    if calls != [] { TotalIsLength(calls[1..]); }
  }

  /** Some group has calls on both sides of the split. */
  ghost predicate Straddles(agg: Aggregate, calls: seq<CallFact>, lo: int, mid: int, hi: int) {
    exists k :: Occurs(agg, calls, k, lo, mid) && Occurs(agg, calls, k, mid, hi)
  }

  lemma SplitRow(agg: Aggregate, calls: seq<CallFact>, k: Key, lo: int, mid: int, hi: int)
    requires lo <= mid <= hi && !(Occurs(agg, calls, k, lo, mid) && Occurs(agg, calls, k, mid, hi))
    ensures Occurs(agg, calls, k, mid, hi) ==> GroupIn(agg, calls, k, mid, hi) == GroupIn(agg, calls, k, lo, hi)
    ensures Occurs(agg, calls, k, lo, mid) ==> GroupIn(agg, calls, k, lo, mid) == GroupIn(agg, calls, k, lo, hi)
  {
    if Occurs(agg, calls, k, mid, hi) { SameGroup(agg, calls, k, mid, hi, lo, hi); }
    if Occurs(agg, calls, k, lo, mid) { SameGroup(agg, calls, k, lo, mid, lo, hi); }
  }

  lemma OccursInHalves(agg: Aggregate, calls: seq<CallFact>, k: Key, lo: int, mid: int, hi: int)
    requires lo <= mid <= hi
    ensures Occurs(agg, calls, k, lo, hi) <==> Occurs(agg, calls, k, lo, mid) || Occurs(agg, calls, k, mid, hi)
  {
  }

  ghost function Split(table: Table, agg: Aggregate, calls: seq<CallFact>, lo: int, mid: int, hi: int): Table {
    Upsert(Upsert(table, agg, calls, lo, mid), agg, calls, mid, hi)
  }

  /** One group over one more window: its row agrees with the fold at once exactly when it agreed
      before and does not have calls on both sides. */
  lemma RowOneMore(chain: Table, base: Table, agg: Aggregate, calls: seq<CallFact>, lo: int, mid: int, hi: int, k: Key)
    requires lo <= mid <= hi
    ensures Occurs(agg, calls, k, mid, hi) ==>
      (SameRow(Upsert(chain, agg, calls, mid, hi), Upsert(base, agg, calls, lo, hi), k) <==>
        !Occurs(agg, calls, k, lo, mid))
    ensures !Occurs(agg, calls, k, mid, hi) ==>
      (SameRow(Upsert(chain, agg, calls, mid, hi), Upsert(base, agg, calls, lo, hi), k) <==>
        SameRow(chain, Upsert(base, agg, calls, lo, mid), k))
  {
    OccursInHalves(agg, calls, k, lo, mid, hi);
    if Occurs(agg, calls, k, mid, hi) {
      UpsertReplaces(chain, agg, calls, k, mid, hi);
      UpsertReplaces(base, agg, calls, k, lo, hi);
      if Occurs(agg, calls, k, lo, mid) {
        SmallerGroup(agg, calls, k, lo, mid, hi);
        TotalIsLength(GroupIn(agg, calls, k, mid, hi));
        TotalIsLength(GroupIn(agg, calls, k, lo, hi));
      } else {
        SplitRow(agg, calls, k, lo, mid, hi);
      }
    } else {
      UpsertKeeps(chain, agg, calls, k, mid, hi);
      if Occurs(agg, calls, k, lo, mid) {
        SplitRow(agg, calls, k, lo, mid, hi);
        UpsertReplaces(base, agg, calls, k, lo, mid);
        UpsertReplaces(base, agg, calls, k, lo, hi);
      } else {
        UpsertKeeps(base, agg, calls, k, lo, mid);
        UpsertKeeps(base, agg, calls, k, lo, hi);
      }
    }
  }

  lemma SplitAgrees(table: Table, agg: Aggregate, calls: seq<CallFact>, lo: int, mid: int, hi: int, k: Key)
    requires lo <= mid <= hi
    ensures SameRow(Split(table, agg, calls, lo, mid, hi), Upsert(table, agg, calls, lo, hi), k) <==>
      !(Occurs(agg, calls, k, lo, mid) && Occurs(agg, calls, k, mid, hi))
  {
    RowOneMore(Upsert(table, agg, calls, lo, mid), table, agg, calls, lo, mid, hi, k);
  }

  /** Folding a window in two parts equals folding it at once exactly when no group has calls in
      both parts: a later part replaces the row of an earlier one. */
  lemma SplitIsExact(table: Table, agg: Aggregate, calls: seq<CallFact>, lo: int, mid: int, hi: int)
    requires lo <= mid <= hi
    ensures Split(table, agg, calls, lo, mid, hi) == Upsert(table, agg, calls, lo, hi) <==>
      !Straddles(agg, calls, lo, mid, hi)
  {
    var split, whole := Split(table, agg, calls, lo, mid, hi), Upsert(table, agg, calls, lo, hi);
    if k :| Occurs(agg, calls, k, lo, mid) && Occurs(agg, calls, k, mid, hi) {
      SplitAgrees(table, agg, calls, lo, mid, hi, k);
      assert !SameRow(split, whole, k);
    } else {
      forall k ensures SameRow(split, whole, k) { SplitAgrees(table, agg, calls, lo, mid, hi, k); }
      SameRowsSameTable(split, whole);
    }
  }

  lemma SameRowsSameTable(a: Table, b: Table)
    requires forall k :: SameRow(a, b, k)
    ensures a == b
  {
    assert forall k :: k in a ==> SameRow(a, b, k);
    assert forall k :: k in b ==> SameRow(a, b, k);
  }

  /** A split at midnight is never straddled. */
  lemma MidnightSplits(agg: Aggregate, calls: seq<CallFact>, lo: int, mid: int, hi: int)
    requires mid % 86400 == 0
    ensures !Straddles(agg, calls, lo, mid, hi)
  {
    forall k ensures !(Occurs(agg, calls, k, lo, mid) && Occurs(agg, calls, k, mid, hi)) {
      var m := DayOf(mid);
      if c :| c in calls && lo <= c.startedAt < mid && KeyOf(agg, c) == k { assert DayOf(c.startedAt) < m; }
      if c :| c in calls && mid <= c.startedAt < hi && KeyOf(agg, c) == k { assert DayOf(c.startedAt) >= m; }
    }
  }

  // ----- runs -----

  /** Two states the worker cannot tell apart. */
  ghost predicate Alike(a: State, b: State) {
    forall agg :: Untouched(a, b, agg)
  }

  /** A second run to the same bound changes nothing. */
  lemma RunTwice(s: State, once: State, twice: State, calls: seq<CallFact>, upto: int)
    requires Advanced(s, once, calls, upto) && Advanced(once, twice, calls, upto)
    ensures Alike(once, twice)
  {
    forall agg ensures Untouched(once, twice, agg) {
      assert Reached(s, once, calls, upto, agg) && Reached(once, twice, calls, upto, agg);
      EmptyWindow(TableOf(once, agg), agg, calls, upto);
    }
  }

  lemma EmptyWindow(table: Table, agg: Aggregate, calls: seq<CallFact>, t: int)
    ensures Upsert(table, agg, calls, t, t) == table
  {
    assert GroupBy(agg, calls, t, t) == map[];
  }

  /** A sequence of states produced by running to each bound in turn. */
  ghost predicate RunsThrough(states: seq<State>, calls: seq<CallFact>, bounds: seq<int>) {
    |states| == |bounds| + 1 && forall i :: 0 <= i < |bounds| ==> RunsAt(states, calls, bounds, i)
  }

  ghost predicate RunsAt(states: seq<State>, calls: seq<CallFact>, bounds: seq<int>, i: int) {
    0 <= i < |bounds| && i + 1 < |states| && Advanced(states[i], states[i + 1], calls, bounds[i])
  }

  /** Every watermark is at or before `bound`. */
  ghost predicate NotPast(s: State, bound: int) {
    forall agg :: WatermarkOf(s, agg) <= bound
  }

  /** Bounds that do not run backwards. */
  ghost predicate Ascending(s: State, bounds: seq<int>) {
    && (forall i :: 0 <= i < |bounds| ==> NotPast(s, bounds[i]))
    && (forall i, j :: 0 <= i < j < |bounds| ==> bounds[i] <= bounds[j])
  }

  /** Where window `i` of the chain begins: at the watermark, then at the bound before. */
  ghost function WindowStart(s: State, bounds: seq<int>, i: nat, agg: Aggregate): int
    requires i < |bounds|
  {
    if i == 0 then WatermarkOf(s, agg) else bounds[i - 1]
  }

  ghost predicate OccursInWindow(s: State, calls: seq<CallFact>, bounds: seq<int>, i: int, agg: Aggregate, k: Key) {
    0 <= i < |bounds| && Occurs(agg, calls, k, WindowStart(s, bounds, i, agg), bounds[i])
  }

  /** The group has calls in two of the first `n` windows. */
  ghost predicate Recurs(s: State, calls: seq<CallFact>, bounds: seq<int>, n: nat, agg: Aggregate, k: Key) {
    exists i, j :: 0 <= i < j < n && OccursInWindow(s, calls, bounds, i, agg, k)
      && OccursInWindow(s, calls, bounds, j, agg, k)
  }

  lemma AscendingAt(s: State, bounds: seq<int>, n: nat, agg: Aggregate)
    requires n < |bounds| && Ascending(s, bounds)
    ensures WatermarkOf(s, agg) <= WindowStart(s, bounds, n, agg) <= bounds[n]
  {
    assert NotPast(s, bounds[n]);
    if n > 0 {
      var i := n - 1;
      assert NotPast(s, bounds[i]) && bounds[i] <= bounds[n];
    }
  }

  /** A group has calls from the watermark to a bound exactly when it has some in a window. */
  lemma {:induction false} OccursInSomeWindow(
      s: State, calls: seq<CallFact>, bounds: seq<int>, n: nat, agg: Aggregate, k: Key)
    requires n < |bounds| && Ascending(s, bounds)
    ensures Occurs(agg, calls, k, WatermarkOf(s, agg), bounds[n]) <==>
      exists i :: 0 <= i <= n && OccursInWindow(s, calls, bounds, i, agg, k)
  {
    AscendingAt(s, bounds, n, agg);
    if n == 0 {
      assert WindowStart(s, bounds, 0, agg) == WatermarkOf(s, agg);
      if Occurs(agg, calls, k, WatermarkOf(s, agg), bounds[0]) { assert OccursInWindow(s, calls, bounds, 0, agg, k); }
    } else {
      OccursInSomeWindow(s, calls, bounds, n - 1, agg, k);
      OccursInHalves(agg, calls, k, WatermarkOf(s, agg), bounds[n - 1], bounds[n]);
      assert OccursInWindow(s, calls, bounds, n, agg, k) <==> Occurs(agg, calls, k, bounds[n - 1], bounds[n]);
    }
  }

  lemma LastWindow(s: State, calls: seq<CallFact>, bounds: seq<int>, n: nat, agg: Aggregate, k: Key)
    requires 0 < n < |bounds|
    ensures OccursInWindow(s, calls, bounds, n, agg, k) <==> Occurs(agg, calls, k, bounds[n - 1], bounds[n])
  {
  }

  lemma RecursLater(s: State, calls: seq<CallFact>, bounds: seq<int>, n: nat, agg: Aggregate, k: Key)
    requires n < |bounds|
    ensures Recurs(s, calls, bounds, n + 1, agg, k) <==>
      Recurs(s, calls, bounds, n, agg, k)
      || (OccursInWindow(s, calls, bounds, n, agg, k)
          && exists i :: 0 <= i < n && OccursInWindow(s, calls, bounds, i, agg, k))
  {
  }

  lemma RecursOneMore(s: State, calls: seq<CallFact>, bounds: seq<int>, n: nat, agg: Aggregate, k: Key)
    requires 0 < n < |bounds| && Ascending(s, bounds)
    ensures Recurs(s, calls, bounds, n + 1, agg, k) <==>
      Recurs(s, calls, bounds, n, agg, k)
      || (Occurs(agg, calls, k, WatermarkOf(s, agg), bounds[n - 1]) && Occurs(agg, calls, k, bounds[n - 1], bounds[n]))
  {
    OccursInSomeWindow(s, calls, bounds, n - 1, agg, k);
    LastWindow(s, calls, bounds, n, agg, k);
    RecursLater(s, calls, bounds, n, agg, k);
    assert (exists i :: 0 <= i < n && OccursInWindow(s, calls, bounds, i, agg, k)) <==>
      (exists i :: 0 <= i <= n - 1 && OccursInWindow(s, calls, bounds, i, agg, k));
  }

  /** The group has the row that one run from `base` to `upto` gives it. */
  ghost predicate AsFoldedAtOnce(base: State, after: State, calls: seq<CallFact>, upto: int, agg: Aggregate, k: Key) {
    SameRow(TableOf(after, agg), Upsert(TableOf(base, agg), agg, calls, WatermarkOf(base, agg), upto), k)
  }

  lemma FirstRun(base: State, after: State, calls: seq<CallFact>, upto: int, agg: Aggregate, k: Key)
    requires Reached(base, after, calls, upto, agg)
    ensures AsFoldedAtOnce(base, after, calls, upto, agg, k)
  {
  }

  lemma OneMoreRun(
      base: State, before: State, after: State, calls: seq<CallFact>, mid: int, hi: int, agg: Aggregate, k: Key)
    requires WatermarkOf(base, agg) <= mid <= hi && WatermarkOf(before, agg) == mid
    requires Reached(before, after, calls, hi, agg)
    ensures Occurs(agg, calls, k, mid, hi) ==>
      (AsFoldedAtOnce(base, after, calls, hi, agg, k) <==> !Occurs(agg, calls, k, WatermarkOf(base, agg), mid))
    ensures !Occurs(agg, calls, k, mid, hi) ==>
      (AsFoldedAtOnce(base, after, calls, hi, agg, k) <==> AsFoldedAtOnce(base, before, calls, mid, agg, k))
  {
    RowOneMore(TableOf(before, agg), TableOf(base, agg), agg, calls, WatermarkOf(base, agg), mid, hi, k);
  }

  /** After the first windows a group's row is that of the fold at once exactly when the group has
      calls in at most one of them. */
  lemma {:induction false} ChainRow(
      states: seq<State>, calls: seq<CallFact>, bounds: seq<int>, n: nat, agg: Aggregate, k: Key)
    requires n < |bounds| && RunsThrough(states, calls, bounds) && Ascending(states[0], bounds)
    ensures WatermarkOf(states[n + 1], agg) == bounds[n]
    ensures AsFoldedAtOnce(states[0], states[n + 1], calls, bounds[n], agg, k) <==>
      !Recurs(states[0], calls, bounds, n + 1, agg, k)
  {
    RunReaches(states, calls, bounds, n, agg);
    if n == 0 {
      FirstRun(states[0], states[1], calls, bounds[0], agg, k);
    } else {
      ChainRow(states, calls, bounds, n - 1, agg, k);
      AscendingAt(states[0], bounds, n - 1, agg);
      AscendingAt(states[0], bounds, n, agg);
      RecursOneMore(states[0], calls, bounds, n, agg, k);
      if Recurs(states[0], calls, bounds, n, agg, k) { RecursIsOccurrence(states[0], calls, bounds, n, agg, k); }
      OneMoreRun(states[0], states[n], states[n + 1], calls, bounds[n - 1], bounds[n], agg, k);
    }
  }

  lemma RecursIsOccurrence(s: State, calls: seq<CallFact>, bounds: seq<int>, n: nat, agg: Aggregate, k: Key)
    requires 0 < n < |bounds| && Ascending(s, bounds) && Recurs(s, calls, bounds, n, agg, k)
    ensures Occurs(agg, calls, k, WatermarkOf(s, agg), bounds[n - 1])
  {
    OccursInSomeWindow(s, calls, bounds, n - 1, agg, k);
    var i, j :| 0 <= i < j < n && OccursInWindow(s, calls, bounds, i, agg, k)
      && OccursInWindow(s, calls, bounds, j, agg, k);
  }

  lemma RunReaches(states: seq<State>, calls: seq<CallFact>, bounds: seq<int>, n: nat, agg: Aggregate)
    requires n < |bounds| && RunsThrough(states, calls, bounds)
    ensures Reached(states[n], states[n + 1], calls, bounds[n], agg)
  {
    assert RunsAt(states, calls, bounds, n);
  }

  /** Some group of some aggregate has calls in two windows of the chain. */
  ghost predicate SomeRecurs(s: State, calls: seq<CallFact>, bounds: seq<int>) {
    exists agg, k :: Recurs(s, calls, bounds, |bounds|, agg, k)
  }

  /** A chain of runs to ascending bounds ends like one run to the last bound exactly when no group
      has calls in two of its windows. */
  lemma ChainIsExact(states: seq<State>, calls: seq<CallFact>, bounds: seq<int>, whole: State)
    requires bounds != [] && RunsThrough(states, calls, bounds) && Ascending(states[0], bounds)
    requires Advanced(states[0], whole, calls, bounds[|bounds| - 1])
    ensures Alike(states[|bounds|], whole) <==> !SomeRecurs(states[0], calls, bounds)
  {
    var n := |bounds| - 1;
    var start, last := states[0], states[n + 1];
    if agg, k :| Recurs(start, calls, bounds, |bounds|, agg, k) {
      ChainRow(states, calls, bounds, n, agg, k);
      assert Reached(start, whole, calls, bounds[n], agg);
      assert !Untouched(last, whole, agg);
    } else {
      forall agg ensures Untouched(last, whole, agg) {
        assert Reached(start, whole, calls, bounds[n], agg);
        var chained, folded := TableOf(last, agg), TableOf(whole, agg);
        forall k ensures SameRow(chained, folded, k) { ChainRow(states, calls, bounds, n, agg, k); }
        SameRowsSameTable(chained, folded);
        ChainRow(states, calls, bounds, n, agg, Key(0, "", []));
      }
    }
  }

  /** Bounds that do not run backwards, all but the last at midnight. */
  ghost predicate DayAligned(s: State, bounds: seq<int>) {
    Ascending(s, bounds) && forall i :: 0 <= i < |bounds| - 1 ==> bounds[i] % 86400 == 0
  }

  /** At midnight bounds no group recurs, so a chain of day-aligned runs equals one run. */
  lemma AlignedChain(states: seq<State>, calls: seq<CallFact>, bounds: seq<int>, whole: State)
    requires bounds != [] && RunsThrough(states, calls, bounds) && DayAligned(states[0], bounds)
    requires Advanced(states[0], whole, calls, bounds[|bounds| - 1])
    ensures Alike(states[|bounds|], whole)
  {
    forall agg, k ensures !Recurs(states[0], calls, bounds, |bounds|, agg, k) {
      NeverRecurs(states[0], calls, bounds, |bounds|, agg, k);
    }
    ChainIsExact(states, calls, bounds, whole);
  }

  lemma {:induction false} NeverRecurs(s: State, calls: seq<CallFact>, bounds: seq<int>, n: nat, agg: Aggregate, k: Key)
    requires n <= |bounds| && DayAligned(s, bounds)
    ensures !Recurs(s, calls, bounds, n, agg, k)
  {
    if n > 1 {
      NeverRecurs(s, calls, bounds, n - 1, agg, k);
      RecursOneMore(s, calls, bounds, n - 1, agg, k);
      var mid := bounds[n - 2];
      assert mid % 86400 == 0;
      MidnightSplits(agg, calls, WatermarkOf(s, agg), mid, bounds[n - 1]);
    }
  }

  // ----- backfilling after a chain -----

  /** The chain covers day `d`. */
  ghost predicate CoversDay(s: State, bounds: seq<int>, d: int) {
    && bounds != [] && DayStart(d + 1) <= bounds[|bounds| - 1]
    && forall agg :: WatermarkOf(s, agg) <= DayStart(d)
  }

  lemma CoveredGroup(s: State, calls: seq<CallFact>, bounds: seq<int>, d: int, agg: Aggregate, k: Key)
    requires CoversDay(s, bounds, d) && k.day == d
    ensures GroupIn(agg, calls, k, WatermarkOf(s, agg), bounds[|bounds| - 1]) == GroupOf(agg, calls, k)
  {
    forall c | c in calls && KeyOf(agg, c) == k
      ensures WatermarkOf(s, agg) <= c.startedAt < bounds[|bounds| - 1] && DayStart(d) <= c.startedAt < DayStart(d + 1)
    {
      DayBounds(c.startedAt, d);
    }
    SameGroup(agg, calls, k, WatermarkOf(s, agg), bounds[|bounds| - 1], DayStart(d), DayStart(d + 1));
  }

  /** What the chain's row is compared with is the direct group-by. */
  lemma FoldedIsDirect(s: State, chained: State, calls: seq<CallFact>, bounds: seq<int>, d: int, agg: Aggregate, k: Key)
    requires CoversDay(s, bounds, d) && k.day == d && GroupOf(agg, calls, k) != []
    ensures AsFoldedAtOnce(s, chained, calls, bounds[|bounds| - 1], agg, k) <==>
      Direct(TableOf(chained, agg), agg, calls, k)
  {
    var lo, hi := WatermarkOf(s, agg), bounds[|bounds| - 1];
    CoveredGroup(s, calls, bounds, d, agg, k);
    GroupMembers(agg, calls, k, lo, hi);
    var c := GroupOf(agg, calls, k)[0];
    assert c in GroupIn(agg, calls, k, lo, hi);
    assert Occurs(agg, calls, k, lo, hi);
    UpsertReplaces(TableOf(s, agg), agg, calls, k, lo, hi);
  }

  lemma SameAsDirect(a: Table, b: Table, agg: Aggregate, calls: seq<CallFact>, k: Key)
    requires Direct(a, agg, calls, k)
    ensures SameRow(a, b, k) <==> Direct(b, agg, calls, k)
  {
  }

  /** Backfilling a day after a chain of runs that covers it leaves the row of a group with calls on
      that day exactly when the group has calls in one window of the chain only. */
  lemma BackfillAfterChain(
      states: seq<State>, calls: seq<CallFact>, bounds: seq<int>, after: State, d: int, agg: Aggregate, k: Key)
    requires RunsThrough(states, calls, bounds) && Ascending(states[0], bounds) && CoversDay(states[0], bounds, d)
    requires Folded(states[|bounds|], after, calls, DayStart(d), DayStart(d + 1))
    requires k.day == d && GroupOf(agg, calls, k) != []
    ensures SameRow(TableOf(after, agg), TableOf(states[|bounds|], agg), k) <==>
      !Recurs(states[0], calls, bounds, |bounds|, agg, k)
  {
    var n := |bounds| - 1;
    var chained := states[n + 1];
    ChainRow(states, calls, bounds, n, agg, k);
    FoldedIsDirect(states[0], chained, calls, bounds, d, agg, k);
    BackfillIsExact(chained, after, calls, d, agg, k);
    SameAsDirect(TableOf(after, agg), TableOf(chained, agg), agg, calls, k);
  }

  /** The day has a group with calls in two windows of the chain. */
  ghost predicate DayRecurs(s: State, calls: seq<CallFact>, bounds: seq<int>, d: int) {
    exists agg, k :: DayKeyRecurs(s, calls, bounds, d, agg, k)
  }

  ghost predicate DayKeyRecurs(s: State, calls: seq<CallFact>, bounds: seq<int>, d: int, agg: Aggregate, k: Key) {
    k.day == d && GroupOf(agg, calls, k) != [] && Recurs(s, calls, bounds, |bounds|, agg, k)
  }

  /** So the backfill leaves the whole snapshot alone exactly when the day has no such group. */
  lemma BackfillChangesNothing(states: seq<State>, calls: seq<CallFact>, bounds: seq<int>, after: State, d: int)
    requires RunsThrough(states, calls, bounds) && Ascending(states[0], bounds) && CoversDay(states[0], bounds, d)
    requires Folded(states[|bounds|], after, calls, DayStart(d), DayStart(d + 1))
    ensures Alike(states[|bounds|], after) <==> !DayRecurs(states[0], calls, bounds, d)
  {
    var start, chained := states[0], states[|bounds|];
    if agg, k :| DayKeyRecurs(start, calls, bounds, d, agg, k) {
      BackfillAfterChain(states, calls, bounds, after, d, agg, k);
      assert !Untouched(chained, after, agg);
    } else {
      forall agg ensures Untouched(chained, after, agg) {
        var was, now := TableOf(chained, agg), TableOf(after, agg);
        forall k ensures SameRow(now, was, k) {
          BackfilledRow(states, calls, bounds, after, d, agg, k);
        }
        SameRowsSameTable(now, was);
        assert WatermarkOf(after, agg) == WatermarkOf(chained, agg);
      }
    }
  }

  lemma BackfilledRow(
      states: seq<State>, calls: seq<CallFact>, bounds: seq<int>, after: State, d: int, agg: Aggregate, k: Key)
    requires RunsThrough(states, calls, bounds) && Ascending(states[0], bounds) && CoversDay(states[0], bounds, d)
    requires Folded(states[|bounds|], after, calls, DayStart(d), DayStart(d + 1))
    requires !DayKeyRecurs(states[0], calls, bounds, d, agg, k)
    ensures SameRow(TableOf(after, agg), TableOf(states[|bounds|], agg), k)
  {
    if k.day == d && GroupOf(agg, calls, k) != [] {
      BackfillAfterChain(states, calls, bounds, after, d, agg, k);
    } else {
      BackfillIsExact(states[|bounds|], after, calls, d, agg, k);
    }
  }
}
