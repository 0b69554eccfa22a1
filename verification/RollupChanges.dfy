/** The daily aggregates over a calls table that changes between runs: calls arrive, some of them
    late, and columns of calls that were folded already are updated. */
module RollupChanges {
  import opened Prelude
  import opened Rollup
  import opened RollupTheorems

  // ----- runs, each over the calls table of its time -----

  ghost predicate RunOver(states: seq<State>, seen: seq<seq<CallFact>>, bounds: seq<int>, i: int) {
    0 <= i < |bounds| == |seen| && i + 1 < |states| && Advanced(states[i], states[i + 1], seen[i], bounds[i])
  }

  /** Run `i` goes to `bounds[i]` and finds the calls `seen[i]`. */
  ghost predicate RunsOver(states: seq<State>, seen: seq<seq<CallFact>>, bounds: seq<int>) {
    |states| == |bounds| + 1 && |seen| == |bounds| && forall i :: 0 <= i < |bounds| ==> RunOver(states, seen, bounds, i)
  }

  /** The calls of a group that run `i` folds. */
  ghost function FoldedBy(
      s: State, seen: seq<seq<CallFact>>, bounds: seq<int>, i: nat, agg: Aggregate, k: Key): seq<CallFact>
    requires i < |bounds| == |seen|
  {
    GroupIn(agg, seen[i], k, WindowStart(s, bounds, i, agg), bounds[i])
  }

  /** Run `i` folds some call of the group. */
  ghost predicate Touches(s: State, seen: seq<seq<CallFact>>, bounds: seq<int>, i: int, agg: Aggregate, k: Key) {
    0 <= i < |bounds| == |seen| && Occurs(agg, seen[i], k, WindowStart(s, bounds, i, agg), bounds[i])
  }

  /** Run `i` is the last of the first `n` that folds some call of the group. */
  ghost predicate LastTouch(
      s: State, seen: seq<seq<CallFact>>, bounds: seq<int>, n: nat, i: nat, agg: Aggregate, k: Key) {
    && i < n && Touches(s, seen, bounds, i, agg, k)
    && forall j :: i < j < n ==> !Touches(s, seen, bounds, j, agg, k)
  }

  ghost predicate NeverTouched(s: State, seen: seq<seq<CallFact>>, bounds: seq<int>, n: nat, agg: Aggregate, k: Key) {
    forall j :: 0 <= j < n ==> !Touches(s, seen, bounds, j, agg, k)
  }

  lemma StartsAtWatermark(states: seq<State>, seen: seq<seq<CallFact>>, bounds: seq<int>, n: nat, agg: Aggregate)
    requires n < |bounds| && RunsOver(states, seen, bounds)
    ensures WatermarkOf(states[n], agg) == WindowStart(states[0], bounds, n, agg)
    ensures Reached(states[n], states[n + 1], seen[n], bounds[n], agg)
  {
    assert RunOver(states, seen, bounds, n);
    if n > 0 {
      assert RunOver(states, seen, bounds, n - 1);
      assert Reached(states[n - 1], states[n], seen[n - 1], bounds[n - 1], agg);
    }
  }

  /** A group's row is the summary of what the last run that folded any of its calls found. */
  ghost predicate RowOf(
      states: seq<State>, seen: seq<seq<CallFact>>, bounds: seq<int>, n: nat, i: nat, agg: Aggregate, k: Key)
    requires i < |bounds| == |seen| && n < |states|
  {
    var table := TableOf(states[n], agg);
    k in table && table[k] == Summarize(FoldedBy(states[0], seen, bounds, i, agg, k))
  }

  lemma OneRunMore(
      states: seq<State>, seen: seq<seq<CallFact>>, bounds: seq<int>, m: nat, agg: Aggregate, k: Key)
    requires m < |bounds| && RunsOver(states, seen, bounds)
    ensures Touches(states[0], seen, bounds, m, agg, k) ==> RowOf(states, seen, bounds, m + 1, m, agg, k)
    ensures !Touches(states[0], seen, bounds, m, agg, k) ==>
      SameRow(TableOf(states[m + 1], agg), TableOf(states[m], agg), k)
  {
    StartsAtWatermark(states, seen, bounds, m, agg);
    var lo := WindowStart(states[0], bounds, m, agg);
    if Touches(states[0], seen, bounds, m, agg, k) {
      UpsertReplaces(TableOf(states[m], agg), agg, seen[m], k, lo, bounds[m]);
    } else {
      UpsertKeeps(TableOf(states[m], agg), agg, seen[m], k, lo, bounds[m]);
    }
  }

  lemma {:induction false} RowAfterRuns(
      states: seq<State>, seen: seq<seq<CallFact>>, bounds: seq<int>, n: nat, agg: Aggregate, k: Key)
    requires n <= |bounds| && RunsOver(states, seen, bounds)
    ensures NeverTouched(states[0], seen, bounds, n, agg, k) ==>
      SameRow(TableOf(states[n], agg), TableOf(states[0], agg), k)
    ensures forall i: nat :: LastTouch(states[0], seen, bounds, n, i, agg, k) ==>
      RowOf(states, seen, bounds, n, i, agg, k)
  {
    if n > 0 {
      RowAfterRuns(states, seen, bounds, n - 1, agg, k);
      OneRunMore(states, seen, bounds, n - 1, agg, k);
      forall i: nat | LastTouch(states[0], seen, bounds, n, i, agg, k)
        ensures RowOf(states, seen, bounds, n, i, agg, k)
      {
        if i < n - 1 { assert LastTouch(states[0], seen, bounds, n - 1, i, agg, k); }
      }
    }
  }

  lemma {:induction false} SomeLastTouch(
      s: State, seen: seq<seq<CallFact>>, bounds: seq<int>, n: nat, agg: Aggregate, k: Key) returns (i: nat)
    requires !NeverTouched(s, seen, bounds, n, agg, k)
    ensures LastTouch(s, seen, bounds, n, i, agg, k)
  {
    if Touches(s, seen, bounds, n - 1, agg, k) { return n - 1; }
    i := SomeLastTouch(s, seen, bounds, n - 1, agg, k);
  }

  // ----- calls that arrive -----

  /** Calls only arrive: what a run finds are the first rows of the table as it is now. */
  ghost predicate OnlyArrivals(seen: seq<seq<CallFact>>, now: seq<CallFact>) {
    forall i :: 0 <= i < |seen| ==> seen[i] <= now
  }

  /** A call of the group that `earlier` lacks, or that started outside the window. */
  ghost predicate Missed(agg: Aggregate, earlier: seq<CallFact>, now: seq<CallFact>, k: Key, lo: int, hi: int, p: int) {
    0 <= p < |now| && KeyOf(agg, now[p]) == k && !(p < |earlier| && lo <= now[p].startedAt < hi)
  }

  /** Run `i` found every call of the group, and found it in its window. */
  ghost predicate FoldsAll(
      s: State, seen: seq<seq<CallFact>>, bounds: seq<int>, now: seq<CallFact>, i: int, agg: Aggregate, k: Key) {
    && 0 <= i < |bounds| == |seen|
    && forall p :: !Missed(agg, seen[i], now, k, WindowStart(s, bounds, i, agg), bounds[i], p)
  }

  lemma MissedLater(agg: Aggregate, earlier: seq<CallFact>, now: seq<CallFact>, k: Key, lo: int, hi: int, p: int)
    requires now != [] && p > 0
    ensures Missed(agg, earlier, now, k, lo, hi, p) <==>
      Missed(agg, if earlier == [] then [] else earlier[1..], now[1..], k, lo, hi, p - 1)
  {
  }

  /** A window over an earlier table gives the whole group if it misses no call, and a smaller one
      if it does. */
  lemma {:induction false} EarlierGroup(
      agg: Aggregate, earlier: seq<CallFact>, now: seq<CallFact>, k: Key, lo: int, hi: int)
    requires earlier <= now
    ensures |GroupIn(agg, earlier, k, lo, hi)| <= |GroupOf(agg, now, k)|
    ensures (forall p :: !Missed(agg, earlier, now, k, lo, hi, p)) ==>
      GroupIn(agg, earlier, k, lo, hi) == GroupOf(agg, now, k)
    ensures (exists p :: Missed(agg, earlier, now, k, lo, hi, p)) ==>
      |GroupIn(agg, earlier, k, lo, hi)| < |GroupOf(agg, now, k)|
  {
    if now != [] {
      var rest := if earlier == [] then [] else earlier[1..];
      DayBounds(now[0].startedAt, k.day);
      EarlierGroup(agg, rest, now[1..], k, lo, hi);
      forall p | p > 0 ensures
        Missed(agg, earlier, now, k, lo, hi, p) <==> Missed(agg, rest, now[1..], k, lo, hi, p - 1)
      {
        MissedLater(agg, earlier, now, k, lo, hi, p);
      }
      if p :| Missed(agg, rest, now[1..], k, lo, hi, p) { assert Missed(agg, earlier, now, k, lo, hi, p + 1); }
      if p :| Missed(agg, earlier, now, k, lo, hi, p) {
        assert p == 0 || Missed(agg, rest, now[1..], k, lo, hi, p - 1);
      } else {
        assert !Missed(agg, earlier, now, k, lo, hi, 0);
      }
    }
  }

  /** If run `i` folds all of a group, no other run folds any of it. */
  lemma FoldsAllIsLast(
      s: State, seen: seq<seq<CallFact>>, bounds: seq<int>, now: seq<CallFact>, i: nat, agg: Aggregate, k: Key)
    requires FoldsAll(s, seen, bounds, now, i, agg, k) && GroupOf(agg, now, k) != []
    requires OnlyArrivals(seen, now) && Ascending(s, bounds)
    ensures LastTouch(s, seen, bounds, |bounds|, i, agg, k)
  {
    var lo, hi := WindowStart(s, bounds, i, agg), bounds[i];
    EarlierGroup(agg, seen[i], now, k, lo, hi);
    GroupMembers(agg, seen[i], k, lo, hi);
    var c := GroupIn(agg, seen[i], k, lo, hi)[0];
    assert c in GroupIn(agg, seen[i], k, lo, hi);
    forall j | i < j < |bounds| ensures !Touches(s, seen, bounds, j, agg, k) {
      forall d | d in seen[j] && KeyOf(agg, d) == k ensures d.startedAt < hi {
        var p :| 0 <= p < |seen[j]| && seen[j][p] == d;
        assert now[p] == d && !Missed(agg, seen[i], now, k, lo, hi, p);
      }
      assert hi <= WindowStart(s, bounds, j, agg);
    }
  }

  /** With calls arriving between runs, and no other change, a group's row is that of a direct
      group-by over all calls exactly when one run found every call of the group in its window, or
      none found any and the row was direct at first: a call that arrives after its window was folded
      is not counted. */
  lemma ArrivalsExact(
      states: seq<State>, seen: seq<seq<CallFact>>, bounds: seq<int>, now: seq<CallFact>, agg: Aggregate, k: Key)
    requires RunsOver(states, seen, bounds) && Ascending(states[0], bounds) && OnlyArrivals(seen, now)
    requires GroupOf(agg, now, k) != []
    ensures Direct(TableOf(states[|bounds|], agg), agg, now, k) <==>
      (exists i :: FoldsAll(states[0], seen, bounds, now, i, agg, k))
      || (NeverTouched(states[0], seen, bounds, |bounds|, agg, k) && Direct(TableOf(states[0], agg), agg, now, k))
  {
    var s, n := states[0], |bounds|;
    RowAfterRuns(states, seen, bounds, n, agg, k);
    if i: nat :| FoldsAll(s, seen, bounds, now, i, agg, k) {
      FoldsAllIsLast(s, seen, bounds, now, i, agg, k);
      EarlierGroup(agg, seen[i], now, k, WindowStart(s, bounds, i, agg), bounds[i]);
      assert RowOf(states, seen, bounds, n, i, agg, k);
    } else if !NeverTouched(s, seen, bounds, n, agg, k) {
      var i := SomeLastTouch(s, seen, bounds, n, agg, k);
      assert RowOf(states, seen, bounds, n, i, agg, k);
      assert !FoldsAll(s, seen, bounds, now, i, agg, k);
      EarlierGroup(agg, seen[i], now, k, WindowStart(s, bounds, i, agg), bounds[i]);
      TotalIsLength(FoldedBy(s, seen, bounds, i, agg, k));
      TotalIsLength(GroupOf(agg, now, k));
    }
  }

  // ----- calls that change -----

  lemma {:induction false} TotalsAround(a: seq<CallFact>, c: CallFact, b: seq<CallFact>)
    ensures var t, x, y := TotalsOf(a + [c] + b), TotalsOf(a), TotalsOf(b);
            && t.calls == x.calls + y.calls + 1
            && t.answered == x.answered + y.answered + One(c.answered)
            && t.contacted == x.contacted + y.contacted + One(c.hasDisposition)
            && t.qualified == x.qualified + y.qualified + One(c.qualified)
            && t.transferred == x.transferred + y.transferred + One(c.transferred)
            && t.verifierAccepted == x.verifierAccepted + y.verifierAccepted + One(c.hasVerifier)
            && t.disqualified == x.disqualified + y.disqualified + One(c.disqualified)
            && t.optedOut == x.optedOut + y.optedOut + One(c.disqualificationReason == Some("opted_out"))
            && t.qaAutofail == x.qaAutofail + y.qaAutofail + One(c.qaAutoFail)
  {
    if a == [] {
      assert ([] + [c] + b)[1..] == b;
    } else {
      TotalsAround(a[1..], c, b);
      assert (a + [c] + b)[1..] == a[1..] + [c] + b;
    }
  }

  lemma {:induction false} PresentAround(
      a: seq<CallFact>, c: CallFact, b: seq<CallFact>, column: CallFact -> Option<int>)
    ensures var values := Present(a + [c] + b, column);
            && |values| == |Present(a, column)| + |Present(b, column)| + One(column(c).Some?)
            && SumOf(values) == SumOf(Present(a, column)) + SumOf(Present(b, column)) + column(c).GetOr(0)
  {
    if a == [] {
      assert ([] + [c] + b)[1..] == b;
    } else {
      PresentAround(a[1..], c, b, column);
      assert (a + [c] + b)[1..] == a[1..] + [c] + b;
    }
  }

  /** A value that changes, appears or disappears leaves the mean of `count` others with this sum. */
  predicate KeepsMean(sum: int, count: nat, was: Option<int>, now: Option<int>) {
    || was == now
    || (count > 0 && was.None? && now.value * count == sum)
    || (count > 0 && now.None? && was.value * count == sum)
  }

  lemma Quotients(p: int, n: nat, q: int, m: nat)
    requires n > 0 && m > 0
    ensures p as real / n as real == q as real / m as real <==> p * m == q * n
  {
    var x, y := p as real / n as real, q as real / m as real;
    assert x * n as real == p as real && y * m as real == q as real;
    assert (p * m) as real == x * (n as real * m as real);
    assert (q * n) as real == y * (n as real * m as real);
  }

  lemma SameSize(sum: int, count: nat, x: int, y: int)
    requires count > 0
    ensures (sum + x) as real / count as real == (sum + y) as real / count as real <==> x == y
  {
    Quotients(sum + x, count, sum + y, count);
    if x != y { assert (sum + x) * count - (sum + y) * count == (x - y) * count != 0; }
  }

  lemma OneMoreValue(sum: int, count: nat, x: int)
    requires count > 0
    ensures (sum + x) as real / (count + 1) as real == sum as real / count as real <==> x * count == sum
  {
    Quotients(sum + x, count + 1, sum, count);
    assert (sum + x) * count - sum * (count + 1) == x * count - sum;
  }

  lemma MeanMoves(u: seq<int>, v: seq<int>, sum: int, count: nat, was: Option<int>, now: Option<int>)
    requires |u| == count + One(was.Some?) && SumOf(u) == sum + was.GetOr(0)
    requires |v| == count + One(now.Some?) && SumOf(v) == sum + now.GetOr(0)
    ensures MeanOf(u) == MeanOf(v) <==> KeepsMean(sum, count, was, now)
  {
    if was.Some? && now.Some? {
      SameSize(sum, count + 1, was.value, now.value);
    } else if was.Some? && count > 0 {
      OneMoreValue(sum, count, was.value);
    } else if now.Some? && count > 0 {
      OneMoreValue(sum, count, now.value);
    }
  }

  lemma MeanAround(a: seq<CallFact>, b: seq<CallFact>, was: CallFact, now: CallFact, column: CallFact -> Option<int>)
    ensures MeanOf(Present(a + [was] + b, column)) == MeanOf(Present(a + [now] + b, column)) <==>
      KeepsMeanOf(a, b, was, now, column)
  {
    PresentAround(a, was, b, column);
    PresentAround(a, now, b, column);
    MeanMoves(Present(a + [was] + b, column), Present(a + [now] + b, column),
              SumOf(Present(a, column)) + SumOf(Present(b, column)), |Present(a, column)| + |Present(b, column)|,
              column(was), column(now));
  }

  predicate KeepsMeanOf(
      a: seq<CallFact>, b: seq<CallFact>, was: CallFact, now: CallFact, column: CallFact -> Option<int>) {
    KeepsMean(SumOf(Present(a, column)) + SumOf(Present(b, column)), |Present(a, column)| + |Present(b, column)|,
              column(was), column(now))
  }

  /** The columns of a call that are counted. */
  function Flags(c: CallFact): (bool, bool, bool, bool, bool, bool, bool, bool) {
    (c.answered, c.hasDisposition, c.qualified, c.transferred, c.hasVerifier, c.disqualified,
     c.disqualificationReason == Some("opted_out"), c.qaAutoFail)
  }

  lemma FlagsAround(a: seq<CallFact>, b: seq<CallFact>, was: CallFact, now: CallFact)
    ensures var x, y := Summarize(a + [was] + b), Summarize(a + [now] + b);
            x.(avgDuration := None, avgTalkTime := None) == y.(avgDuration := None, avgTalkTime := None) <==>
              Flags(was) == Flags(now)
  {
    TotalsAround(a, was, b);
    TotalsAround(a, now, b);
  }

  /** The change of one call of a group does not show in the group's row. */
  predicate Unseen(a: seq<CallFact>, b: seq<CallFact>, was: CallFact, now: CallFact) {
    && Flags(was) == Flags(now)
    && KeepsMeanOf(a, b, was, now, (c: CallFact) => c.durationSeconds)
    && KeepsMeanOf(a, b, was, now, (c: CallFact) => c.talkTimeSeconds)
  }

  lemma ChangeInSummary(a: seq<CallFact>, b: seq<CallFact>, was: CallFact, now: CallFact)
    ensures Summarize(a + [was] + b) == Summarize(a + [now] + b) <==> Unseen(a, b, was, now)
  {
    FlagsAround(a, b, was, now);
    MeanAround(a, b, was, now, (c: CallFact) => c.durationSeconds);
    MeanAround(a, b, was, now, (c: CallFact) => c.talkTimeSeconds);
    ColumnsAreCounts(a + [was] + b);
    ColumnsAreCounts(a + [now] + b);
  }

  /** A call of a group changes after the last run that folded the group, say because it is closed,
      whatever happens to other groups: the row is direct exactly when no counted column of that call
      has changed and both averages are as before. */
  lemma ChangedCallExact(
      states: seq<State>, seen: seq<seq<CallFact>>, bounds: seq<int>, calls: seq<CallFact>, agg: Aggregate, k: Key,
      i: nat, a: seq<CallFact>, was: CallFact, now: CallFact, b: seq<CallFact>)
    requires RunsOver(states, seen, bounds) && LastTouch(states[0], seen, bounds, |bounds|, i, agg, k) && i < |bounds|
    requires FoldedBy(states[0], seen, bounds, i, agg, k) == a + [was] + b && GroupOf(agg, calls, k) == a + [now] + b
    ensures Direct(TableOf(states[|bounds|], agg), agg, calls, k) <==> Unseen(a, b, was, now)
  {
    RowAfterRuns(states, seen, bounds, |bounds|, agg, k);
    assert RowOf(states, seen, bounds, |bounds|, i, agg, k);
    ChangeInSummary(a, b, was, now);
  }

  // ----- backfilling -----

  /** The day's rows are those of a direct group-by: one for each group with calls, and no other. */
  ghost predicate DayIsDirect(table: Table, agg: Aggregate, calls: seq<CallFact>, d: int) {
    forall k :: KeyIsDirect(table, agg, calls, d, k)
  }

  ghost predicate KeyIsDirect(table: Table, agg: Aggregate, calls: seq<CallFact>, d: int, k: Key) {
    k.day == d ==> if GroupOf(agg, calls, k) != [] then Direct(table, agg, calls, k) else k !in table
  }

  /** A row of the day whose group has no calls any more. */
  ghost predicate Vanished(table: Table, agg: Aggregate, calls: seq<CallFact>, d: int, k: Key) {
    k.day == d && k in table && GroupOf(agg, calls, k) == []
  }

  /** A backfill makes a day exact, whatever was missed or has changed, unless a group has lost all
      its calls, which happens when a column changes that is part of the key: its row stays. */
  lemma BackfillRepairs(before: State, after: State, calls: seq<CallFact>, d: int, agg: Aggregate)
    requires Folded(before, after, calls, DayStart(d), DayStart(d + 1))
    ensures DayIsDirect(TableOf(after, agg), agg, calls, d) <==>
      !exists k :: Vanished(TableOf(before, agg), agg, calls, d, k)
  {
    forall k
      ensures KeyIsDirect(TableOf(after, agg), agg, calls, d, k) <==>
        !Vanished(TableOf(before, agg), agg, calls, d, k)
    {
      BackfillIsExact(before, after, calls, d, agg, k);
    }
  }

  /** A call that is given a disqualification reason after it was folded moves to another group of the
      compliance table, and a backfill leaves the row it was counted in. */
  lemma MovedCallLeavesRow(table: Table, c: CallFact, reason: string)
    requires c.disqualificationReason == None && reason != "" && reason != UNSET
    ensures var moved, d, k := c.(disqualificationReason := Some(reason)), DayOf(c.startedAt), KeyOf(Compliance, c);
            var after := FoldOnce(FoldOnce(table, Compliance, [c], d), Compliance, [moved], d);
            Vanished(after, Compliance, [moved], d, k) && Direct(after, Compliance, [c], k)
  {
    var moved, d, k := c.(disqualificationReason := Some(reason)), DayOf(c.startedAt), KeyOf(Compliance, c);
    assert KeyOf(Compliance, moved).labels[1] != k.labels[1];
    OnlyCallOf(c, k);
    OnlyCallOf(moved, k);
    EmptiedGroupStays(table, [c], [moved], d, k);
  }

  lemma OnlyCallOf(c: CallFact, k: Key)
    ensures GroupOf(Compliance, [c], k) == if KeyOf(Compliance, c) == k then [c] else []
  {
    DayBounds(c.startedAt, k.day);
    assert GroupIn(Compliance, [c][1..], k, DayStart(k.day), DayStart(k.day + 1)) == [];
  }

  lemma EmptiedGroupStays(table: Table, was: seq<CallFact>, now: seq<CallFact>, d: int, k: Key)
    requires k.day == d && GroupOf(Compliance, was, k) != [] && GroupOf(Compliance, now, k) == []
    ensures Direct(FoldOnce(FoldOnce(table, Compliance, was, d), Compliance, now, d), Compliance, was, k)
  {
    var first := FoldOnce(table, Compliance, was, d);
    GroupIsOccurrence(Compliance, was, k, d);
    GroupIsOccurrence(Compliance, now, k, d);
    BackfillReplaces(table, Compliance, was, d, k);
    UpsertKeeps(first, Compliance, now, k, DayStart(d), DayStart(d + 1));
  }
}
