/** What a sequence of dialer runs submits: no lead twice once it has an id, no blocked lead at
    all, and nothing more once the leads at the head of the batch cannot be dialed. */
module HopperTheorems {
  import opened Prelude
  import opened HopperIngest
  import opened Transitions

  // ----- what one run submits -----

  /** A submission the run may make: a dialable lead of the window, with the dialer's answer. */
  ghost predicate NewPush(
      leads: seq<DialLead>, window: seq<nat>, register: set<string>, answers: nat -> Answer, p: Push) {
    && p.lead in window && p.lead < |leads|
    && Dialable(leads[p.lead], register)
    && p == Push(p.lead, leads[p.lead].phone, answers(p.lead))
  }

  ghost predicate InOrder(pushes: seq<Push>) {
    forall j, k :: 0 <= j < k < |pushes| ==> pushes[j].lead < pushes[k].lead
  }

  /** Push `k` gave lead `i` the dialer id `id`. */
  ghost predicate NamedAt(pushes: seq<Push>, k: int, i: nat, id: string) {
    0 <= k < |pushes| && pushes[k].lead == i && pushes[k].answer == Accepted(Some(id))
  }

  ghost predicate NamedIn(pushes: seq<Push>, i: nat, id: string) {
    exists k :: NamedAt(pushes, k, i, id)
  }

  /** The flag is the only thing the loop changes, and only on blocked leads of the window. */
  ghost predicate OnlyFlagged(before: seq<DialLead>, after: seq<DialLead>, window: seq<nat>, register: set<string>) {
    |after| == |before| && forall i :: 0 <= i < |before| ==>
      after[i] == before[i]
        || (i in window && Blocked(before[i], register) && after[i] == before[i].(suppressed := true))
  }

  ghost predicate SubmitEffect(
      t: Tally, r: Tally, window: seq<nat>, register: set<string>, answers: nat -> Answer, news: seq<Push>) {
    && r.pushes == t.pushes + news && InOrder(news)
    && (forall p :: p in news ==> NewPush(t.leads, window, register, answers, p))
    && (forall i: nat, id :: (i, id) in r.pairs <==> (i, id) in t.pairs || NamedIn(news, i, id))
    && OnlyFlagged(t.leads, r.leads, window, register)
  }

  lemma NamedInCons(p: Push, rest: seq<Push>, i: nat, id: string)
    ensures NamedIn([p] + rest, i, id) <==> (p.lead == i && p.answer == Accepted(Some(id))) || NamedIn(rest, i, id)
  {
    var all := [p] + rest;
    if k :| NamedAt(all, k, i, id) {
      if k > 0 { assert NamedAt(rest, k - 1, i, id); }
    }
    if k :| NamedAt(rest, k, i, id) { assert NamedAt(all, k + 1, i, id); }
    if p.lead == i && p.answer == Accepted(Some(id)) { assert NamedAt(all, 0, i, id); }
  }

  lemma RestIsLater(window: seq<nat>)
    requires window != [] && Increasing(window)
    ensures Increasing(window[1..]) && forall i :: i in window <==> i == window[0] || i in window[1..]
    ensures forall i :: i in window[1..] ==> window[0] < i
  {
    assert window == [window[0]] + window[1..];
    forall k | 0 <= k < |window[1..]| ensures window[0] < window[1..][k] {
      assert window[1..][k] == window[k + 1];
    }
  }

  /** A submission put in front of what the rest of the window submits. */
  lemma OneMorePush(
      t: Tally, next: Tally, r: Tally, window: seq<nat>, register: set<string>, answers: nat -> Answer,
      p: Push, rest: seq<Push>)
    requires window != [] && Increasing(window) && p.lead == window[0] && NewPush(t.leads, window, register, answers, p)
    requires next == SubmitOne(t, p.lead, register, p.answer)
    requires SubmitEffect(next, r, window[1..], register, answers, rest)
    ensures SubmitEffect(t, r, window, register, answers, [p] + rest)
  {
    var news := [p] + rest;
    RestIsLater(window);
    forall q | q in news ensures NewPush(t.leads, window, register, answers, q) {
      if q in rest { assert NewPush(t.leads, window[1..], register, answers, q); }
    }
    forall k | 0 <= k < |rest| ensures p.lead < rest[k].lead {
      assert NewPush(t.leads, window[1..], register, answers, rest[k]);
    }
    forall i: nat, id ensures (i, id) in r.pairs <==> (i, id) in t.pairs || NamedIn(news, i, id) {
      NamedInCons(p, rest, i, id);
    }
  }

  /** The first lead of the window passed over, flagged or not. */
  lemma OneMoreSkip(
      t: Tally, next: Tally, r: Tally, window: seq<nat>, register: set<string>, answers: nat -> Answer, rest: seq<Push>)
    requires window != [] && Increasing(window) && window[0] < |t.leads| && !Dialable(t.leads[window[0]], register)
    requires next == SubmitOne(t, window[0], register, answers(window[0]))
    requires SubmitEffect(next, r, window[1..], register, answers, rest)
    ensures SubmitEffect(t, r, window, register, answers, rest)
  {
    RestIsLater(window);
    forall q | q in rest ensures NewPush(t.leads, window, register, answers, q) {
      assert NewPush(next.leads, window[1..], register, answers, q);
    }
    forall i | 0 <= i < |t.leads|
      ensures r.leads[i] == t.leads[i]
        || (i in window && Blocked(t.leads[i], register) && r.leads[i] == t.leads[i].(suppressed := true))
    {
      assert next.leads[i] == t.leads[i] || i == window[0];
    }
  }

  lemma {:induction false} Submitting(t: Tally, window: seq<nat>, register: set<string>, answers: nat -> Answer)
    returns (news: seq<Push>)
    requires Increasing(window) && forall k :: 0 <= k < |window| ==> window[k] < |t.leads|
    ensures SubmitEffect(t, Submit(t, window, register, answers), window, register, answers, news)
    decreases |window|
  {
    if window == [] {
      news := [];
      assert t.pushes + news == t.pushes;
      return;
    }
    var i := window[0];
    var next, r := SubmitOne(t, i, register, answers(i)), Submit(t, window, register, answers);
    RestIsLater(window);
    if !Dialable(t.leads[i], register) {
      news := Submitting(next, window[1..], register, answers);
      OneMoreSkip(t, next, r, window, register, answers, news);
    } else {
      var p := Push(i, t.leads[i].phone, answers(i));
      assert NewPush(t.leads, window, register, answers, p);
      if p.answer.Unreachable? {
        news := [];
        assert next.pushes + news == next.pushes;
      } else {
        news := Submitting(next, window[1..], register, answers);
      }
      OneMorePush(t, next, r, window, register, answers, p, news);
      news := [p] + news;
    }
  }

  /** A window with a dialable lead makes for a submission. */
  lemma {:induction false} DialableIsSubmitted(
      t: Tally, window: seq<nat>, register: set<string>, answers: nat -> Answer, i: nat)
    requires Increasing(window) && forall k :: 0 <= k < |window| ==> window[k] < |t.leads|
    requires i in window && Dialable(t.leads[i], register)
    ensures |Submit(t, window, register, answers).pushes| > |t.pushes|
    decreases |window|
  {
    RestIsLater(window);
    var first := window[0];
    var next := SubmitOne(t, first, register, answers(first));
    if Dialable(t.leads[first], register) {
      if !answers(first).Unreachable? { OnlyMore(next, window[1..], register, answers); }
    } else {
      DialableIsSubmitted(next, window[1..], register, answers, i);
    }
  }

  lemma OnlyMore(t: Tally, window: seq<nat>, register: set<string>, answers: nat -> Answer)
    requires Increasing(window) && forall k :: 0 <= k < |window| ==> window[k] < |t.leads|
    ensures |Submit(t, window, register, answers).pushes| >= |t.pushes|
  {
    var news := Submitting(t, window, register, answers);
  }

  // ----- runs -----

  datatype Event = Start(register: set<string>, answers: nat -> Answer) | Stop

  ghost function Take(b: Batch, e: Event): Batch {
    match e
    case Start(register, answers) => StartedRun(b, register, answers).0
    case Stop => StoppedRun(b)
  }

  ghost function Run(b: Batch, trace: seq<Event>): Batch {
    RunOf(Take, b, trace)
  }

  /** A committed batch before its first run. */
  ghost function Fresh(leads: seq<DialLead>): Batch {
    Batch(leads, Idle, false, 0, [])
  }

  lemma WithIdsAt(leads: seq<DialLead>, pairs: seq<(nat, string)>, i: nat, id: string)
    requires i < |leads| && forall p :: p in pairs && p.0 == i ==> p.1 == id
    ensures WithIds(leads, pairs)[i] == if (i, id) in pairs then leads[i].(dialerId := Some(id)) else leads[i]
  {
    if pairs != [] {
      var n := |pairs| - 1;
      assert pairs == pairs[..n] + [pairs[n]];
      WithIdsAt(leads, pairs[..n], i, id);
    }
  }

  /** What a step does to one lead: nothing, a flag, or the id the dialer named. */
  ghost predicate LeadStep(before: DialLead, after: DialLead, i: nat, news: seq<Push>) {
    && after.phone == before.phone && after.status == before.status
    && (before.suppressed ==> after.suppressed)
    && (forall id :: NamedIn(news, i, id) ==> after.dialerId == Some(id))
    && ((forall id :: !NamedIn(news, i, id)) ==> after.dialerId == before.dialerId)
  }

  /** What a step submits, and what it does to the leads. */
  ghost predicate StepEffect(b: Batch, b': Batch, register: set<string>, answers: nat -> Answer, news: seq<Push>) {
    && b'.pushes == b.pushes + news && InOrder(news)
    && (forall p :: p in news ==> NewPush(b.leads, Window(b), register, answers, p))
    && |b'.leads| == |b.leads|
    && (forall i: nat :: i < |b.leads| ==> LeadStep(b.leads[i], b'.leads[i], i, news))
    && OnlyBlockedFlagged(b.leads, b'.leads, register)
  }

  /** A lead that is flagged was flagged before or is blocked. */
  ghost predicate OnlyBlockedFlagged(before: seq<DialLead>, after: seq<DialLead>, register: set<string>) {
    |after| == |before| && forall i :: 0 <= i < |before| ==>
      (after[i].suppressed ==> before[i].suppressed || Blocked(before[i], register))
  }

  lemma OneNameEach(news: seq<Push>, i: nat, id: string, id': string)
    requires InOrder(news) && NamedIn(news, i, id) && NamedIn(news, i, id')
    ensures id == id'
  {
    var k :| NamedAt(news, k, i, id);
    var k' :| NamedAt(news, k', i, id');
  }

  lemma LeadAfterRun(before: DialLead, flagged: seq<DialLead>, pairs: seq<(nat, string)>, i: nat, news: seq<Push>)
    requires i < |flagged| && InOrder(news)
    requires flagged[i] == before || flagged[i] == before.(suppressed := true)
    requires forall id :: (i, id) in pairs <==> NamedIn(news, i, id)
    ensures LeadStep(before, WithIds(flagged, pairs)[i], i, news)
    ensures WithIds(flagged, pairs)[i].suppressed == flagged[i].suppressed
  {
    if id :| NamedIn(news, i, id) {
      forall p | p in pairs && p.0 == i ensures p.1 == id {
        assert p == (i, p.1);
        OneNameEach(news, i, p.1, id);
      }
      WithIdsAt(flagged, pairs, i, id);
      forall id' | NamedIn(news, i, id') ensures id' == id { OneNameEach(news, i, id', id); }
    } else {
      forall p | p in pairs ensures p.0 != i {
        assert p == (p.0, p.1) && !NamedIn(news, i, p.1);
      }
      WithIdsAt(flagged, pairs, i, "");
    }
  }

  lemma StartEffect(b: Batch, register: set<string>, answers: nat -> Answer) returns (news: seq<Push>)
    ensures StepEffect(b, StartedRun(b, register, answers).0, register, answers, news)
  {
    var window := Window(b);
    var start := Tally(b.leads, b.pushes, [], 0);
    news := Submitting(start, window, register, answers);
    var t := Submit(start, window, register, answers);
    var after := StartedRun(b, register, answers).0;
    assert window != [] ==> after.pushes == t.pushes && after.leads == WithIds(t.leads, t.pairs);
    forall i: nat | i < |b.leads|
      ensures LeadStep(b.leads[i], after.leads[i], i, news)
      ensures after.leads[i].suppressed ==> b.leads[i].suppressed || Blocked(b.leads[i], register)
    {
      LeadAfterRun(b.leads[i], t.leads, t.pairs, i, news);
    }
  }

  // ----- accounts -----

  function AcceptedCount(pushes: seq<Push>): nat {
    if pushes == [] then 0 else AcceptedCount(pushes[1..]) + if pushes[0].answer.Accepted? then 1 else 0
  }

  function NamedCount(pushes: seq<Push>): nat {
    if pushes == [] then 0 else NamedCount(pushes[1..]) + if Names(pushes[0].answer) then 1 else 0
  }

  ghost predicate AlwaysReached(pushes: seq<Push>) {
    forall p :: p in pushes ==> !p.answer.Unreachable?
  }

  ghost predicate Accounts(t: Tally, r: Tally, size: nat, news: seq<Push>) {
    && r.pushes == t.pushes + news
    && |r.pairs| == |t.pairs| + NamedCount(news)
    && r.errors + AcceptedCount(news) <= t.errors + size
    && (AlwaysReached(news) ==> r.errors + AcceptedCount(news) == t.errors + size)
  }

  lemma {:induction false} SubmitAccounts(t: Tally, window: seq<nat>, register: set<string>, answers: nat -> Answer)
    returns (news: seq<Push>)
    requires forall k :: 0 <= k < |window| ==> window[k] < |t.leads|
    ensures Accounts(t, Submit(t, window, register, answers), |window|, news)
    decreases |window|
  {
    news := [];
    if window != [] {
      var i := window[0];
      var next := SubmitOne(t, i, register, answers(i));
      var sent := Dialable(t.leads[i], register);
      if !(sent && answers(i).Unreachable?) { news := SubmitAccounts(next, window[1..], register, answers); }
      if sent {
        var p, rest := Push(i, t.leads[i].phone, answers(i)), news;
        news := [p] + rest;
        assert news[1..] == rest && p in news;
        assert forall q :: q in rest ==> q in news;
      }
    }
  }

  /** The counts a started run reports: the accepted ones are those named, and the whole window is
      accepted or rejected, but for leads accepted without an id and, when the dialer was lost,
      leads not reached. */
  lemma RunAccounts(b: Batch, register: set<string>, answers: nat -> Answer) returns (news: seq<Push>)
    requires StartedRun(b, register, answers).1.Started?
    ensures var (after, reply) := StartedRun(b, register, answers);
            && after.pushes == b.pushes + news
            && reply.submitted == |Window(b)|
            && reply.accepted == NamedCount(news) > 0
            && reply.rejected + AcceptedCount(news) <= reply.submitted
            && (AlwaysReached(news) ==> reply.rejected + AcceptedCount(news) == reply.submitted)
  {
    news := SubmitAccounts(Tally(b.leads, b.pushes, [], 0), Window(b), register, answers);
  }

  // ----- no lead twice -----

  /** A lead's dialer id is the one the dialer named when it was submitted. */
  ghost predicate IdsWereNamed(b: Batch) {
    forall i: nat, id :: i < |b.leads| ==> (b.leads[i].dialerId == Some(id) <==> NamedIn(b.pushes, i, id))
  }

  /** Nothing is submitted again after the dialer has named its id. */
  ghost predicate NeverAfterNamed(pushes: seq<Push>) {
    forall k, m :: 0 <= k < m < |pushes| && Names(pushes[k].answer) ==> pushes[m].lead != pushes[k].lead
  }

  ghost predicate InRange(b: Batch) {
    forall p :: p in b.pushes ==> p.lead < |b.leads|
  }

  ghost predicate Valid(b: Batch) {
    IdsWereNamed(b) && NeverAfterNamed(b.pushes) && InRange(b)
  }

  lemma NamedInAppend(a: seq<Push>, b: seq<Push>, i: nat, id: string)
    ensures NamedIn(a + b, i, id) <==> NamedIn(a, i, id) || NamedIn(b, i, id)
  {
    if k :| NamedAt(a + b, k, i, id) {
      if k < |a| { assert NamedAt(a, k, i, id); } else { assert NamedAt(b, k - |a|, i, id); }
    }
    if k :| NamedAt(a, k, i, id) { assert NamedAt(a + b, k, i, id); }
    if k :| NamedAt(b, k, i, id) { assert NamedAt(a + b, k + |a|, i, id); }
  }

  /** A lead that is submitted had no id. */
  lemma SubmittedWasPending(b: Batch, register: set<string>, answers: nat -> Answer, p: Push)
    requires NewPush(b.leads, Window(b), register, answers, p)
    ensures b.leads[p.lead].dialerId.None?
  {
  }

  lemma StartKeepsNames(b: Batch, b': Batch, register: set<string>, answers: nat -> Answer, news: seq<Push>)
    requires Valid(b) && StepEffect(b, b', register, answers, news)
    ensures IdsWereNamed(b')
  {
    forall i: nat, id | i < |b'.leads| ensures b'.leads[i].dialerId == Some(id) <==> NamedIn(b'.pushes, i, id) {
      NamedInAppend(b.pushes, news, i, id);
      assert LeadStep(b.leads[i], b'.leads[i], i, news);
      assert b.leads[i].dialerId == Some(id) <==> NamedIn(b.pushes, i, id);
      if id' :| NamedIn(news, i, id') {
        var k :| NamedAt(news, k, i, id');
        assert news[k] in news;
        SubmittedWasPending(b, register, answers, news[k]);
      }
    }
  }

  lemma StartKeepsOnce(b: Batch, b': Batch, register: set<string>, answers: nat -> Answer, news: seq<Push>)
    requires Valid(b) && StepEffect(b, b', register, answers, news)
    ensures NeverAfterNamed(b'.pushes) && InRange(b')
  {
    var n := |b.pushes|;
    forall k, m | 0 <= k < m < |b'.pushes| && Names(b'.pushes[k].answer)
      ensures b'.pushes[m].lead != b'.pushes[k].lead
    {
      if k < n <= m {
        var i, id := b.pushes[k].lead, b.pushes[k].answer.dialerId.value;
        assert b.pushes[k] in b.pushes;
        assert NamedAt(b.pushes, k, i, id);
        assert b.leads[i].dialerId == Some(id);
        assert b'.pushes[m] == news[m - n] && news[m - n] in news;
        SubmittedWasPending(b, register, answers, news[m - n]);
      } else if n <= k {
        assert b'.pushes[k] == news[k - n] && b'.pushes[m] == news[m - n];
      }
    }
  }

  lemma StepKeepsValid(b: Batch, e: Event)
    requires Valid(b)
    ensures Valid(Take(b, e))
  {
    match e
    case Stop =>
    case Start(register, answers) =>
      var news := StartEffect(b, register, answers);
      StartKeepsNames(b, Take(b, e), register, answers, news);
      StartKeepsOnce(b, Take(b, e), register, answers, news);
  }

  /** Over every sequence of runs and stops, whatever the dialer answers: the id of a lead is the
      one the dialer named for it, and a lead with an id is never submitted again. */
  lemma EveryRunIsValid(leads: seq<DialLead>, trace: seq<Event>)
    requires forall l :: l in leads ==> l.dialerId.None?
    ensures Valid(Run(Fresh(leads), trace))
  {
    forall i: nat, id | i < |leads| ensures !NamedIn([], i, id) && leads[i].dialerId == None {
      assert leads[i] in leads;
    }
    forall b, e | Valid(b) ensures Valid(Take(b, e)) { StepKeepsValid(b, e); }
    AlwaysKept(Take, Valid, Fresh(leads), trace);
  }

  // ----- no blocked lead at all -----

  /** The lead has an id, no number, or is blocked whatever the register says. */
  ghost predicate Out(lead: DialLead) {
    lead.dialerId.Some? || Stuck(lead)
  }

  ghost predicate Stuck(lead: DialLead) {
    lead.phone == "" || lead.suppressed || OptedOut(lead.status)
  }

  lemma NamedIsSubmitted(news: seq<Push>, i: nat, id: string)
    requires NamedIn(news, i, id)
    ensures exists p :: p in news && p.lead == i
  {
    var k :| NamedAt(news, k, i, id);
    assert news[k] in news;
  }

  /** Nothing submitted in a run is on the register of that run, flagged or opted out. */
  lemma RunRespectsGuard(b: Batch, register: set<string>, answers: nat -> Answer)
    ensures var after := StartedRun(b, register, answers).0;
            && b.pushes <= after.pushes
            && forall p :: p in after.pushes[|b.pushes|..] ==>
                 && p.lead < |b.leads| && p.phone == b.leads[p.lead].phone && p.phone !in register
                 && !Out(b.leads[p.lead])
  {
    var news := StartEffect(b, register, answers);
    var after := StartedRun(b, register, answers).0;
    assert after.pushes[|b.pushes|..] == news;
    forall p | p in news ensures !Out(b.leads[p.lead]) { SubmittedWasPending(b, register, answers, p); }
  }

  /** Lead `i` is out and has not been submitted since the log had `n` entries. */
  ghost predicate OutSince(b: Batch, i: nat, n: nat) {
    && i < |b.leads| && Out(b.leads[i])
    && n <= |b.pushes| && forall p :: p in b.pushes[n..] ==> p.lead != i
  }

  lemma StepKeepsOut(b: Batch, e: Event, i: nat, n: nat)
    requires OutSince(b, i, n)
    ensures OutSince(Take(b, e), i, n)
  {
    match e
    case Stop =>
    case Start(register, answers) =>
      var news := StartEffect(b, register, answers);
      var b' := Take(b, e);
      assert b'.pushes[n..] == b.pushes[n..] + news;
      forall p | p in news ensures p.lead != i { SubmittedWasPending(b, register, answers, p); }
      assert LeadStep(b.leads[i], b'.leads[i], i, news);
      forall id ensures !NamedIn(news, i, id) {
        if NamedIn(news, i, id) { NamedIsSubmitted(news, i, id); }
      }
  }

  /** A lead that has an id, is flagged, opted out or has no number is never submitted from then
      on, whatever follows. */
  lemma OutForGood(b: Batch, trace: seq<Event>, i: nat)
    requires i < |b.leads| && Out(b.leads[i])
    ensures OutSince(Run(b, trace), i, |b.pushes|)
  {
    var inv := (s: Batch) => OutSince(s, i, |b.pushes|);
    forall s, e | inv(s) ensures inv(Take(s, e)) { StepKeepsOut(s, e, i, |b.pushes|); }
    assert b.pushes[|b.pushes|..] == [];
    AlwaysKept(Take, inv, b, trace);
  }

  // ----- where the next run continues -----

  /** How many leads of `leads[lo..hi]` are without an id. */
  ghost function PendingCount(leads: seq<DialLead>, lo: nat, hi: nat): nat
    requires lo <= hi <= |leads|
    decreases hi - lo
  {
    if lo == hi then 0 else PendingCount(leads, lo + 1, hi) + if leads[lo].dialerId.None? then 1 else 0
  }

  lemma {:induction false} PendingMeaning(leads: seq<DialLead>, start: nat, limit: nat, i: nat)
    requires start <= i < |leads|
    ensures i in PendingLeads(leads, start, limit) <==>
      leads[i].dialerId.None? && PendingCount(leads, start, i) < limit
    decreases |leads| - start
  {
    if limit > 0 && start < i {
      PendingMeaning(leads, start + 1, if leads[start].dialerId.None? then limit - 1 else limit, i);
    }
  }

  lemma {:induction false} PendingShrinks(before: seq<DialLead>, after: seq<DialLead>, lo: nat, hi: nat)
    requires lo <= hi <= |before| == |after|
    requires forall i :: 0 <= i < |before| && before[i].dialerId.Some? ==> after[i].dialerId.Some?
    ensures PendingCount(after, lo, hi) <= PendingCount(before, lo, hi)
    decreases hi - lo
  {
    if lo < hi { PendingShrinks(before, after, lo + 1, hi); }
  }

  lemma IdsStay(b: Batch, b': Batch, register: set<string>, answers: nat -> Answer, news: seq<Push>, i: nat)
    requires StepEffect(b, b', register, answers, news) && i < |b.leads| && b.leads[i].dialerId.Some?
    ensures b'.leads[i].dialerId.Some?
  {
    assert LeadStep(b.leads[i], b'.leads[i], i, news);
  }

  /** A lead submitted in a run is offered again by the next run exactly when the dialer named no
      id for it, even if the dialer accepted it. */
  lemma OfferedAgain(b: Batch, register: set<string>, answers: nat -> Answer, p: Push)
    requires var after := StartedRun(b, register, answers).0;
      b.pushes <= after.pushes && p in after.pushes[|b.pushes|..]
    ensures p.lead in Window(StartedRun(b, register, answers).0) <==> !Names(p.answer)
  {
    var news := StartEffect(b, register, answers);
    assert StartedRun(b, register, answers).0.pushes[|b.pushes|..] == news;
    IdUnlessNamed(b, StartedRun(b, register, answers).0, register, answers, news, p);
    StaysInWindow(b, StartedRun(b, register, answers).0, register, answers, news, p.lead);
  }

  lemma IdUnlessNamed(b: Batch, b': Batch, register: set<string>, answers: nat -> Answer, news: seq<Push>, p: Push)
    requires StepEffect(b, b', register, answers, news) && p in news
    ensures p.lead in Window(b) && p.lead < |b'.leads|
    ensures b'.leads[p.lead].dialerId.None? <==> !Names(p.answer)
  {
    var i := p.lead;
    SubmittedWasPending(b, register, answers, p);
    assert LeadStep(b.leads[i], b'.leads[i], i, news);
    var k :| 0 <= k < |news| && news[k] == p;
    if Names(p.answer) { assert NamedAt(news, k, i, p.answer.dialerId.value); }
    forall id | NamedIn(news, i, id) ensures Names(p.answer) {
      var m :| NamedAt(news, m, i, id);
    }
  }

  lemma StaysInWindow(b: Batch, b': Batch, register: set<string>, answers: nat -> Answer, news: seq<Push>, i: nat)
    requires StepEffect(b, b', register, answers, news) && i in Window(b) && i < |b'.leads|
    ensures i in Window(b') <==> b'.leads[i].dialerId.None?
  {
    forall j | 0 <= j < |b.leads| && b.leads[j].dialerId.Some? ensures b'.leads[j].dialerId.Some? {
      IdsStay(b, b', register, answers, news, j);
    }
    PendingMeaning(b.leads, 0, MAX_HOPPER_INGEST, i);
    PendingMeaning(b'.leads, 0, MAX_HOPPER_INGEST, i);
    PendingShrinks(b.leads, b'.leads, 0, i);
  }

  // ----- starvation -----

  /** None of the leads the next run would take can ever be dialed. */
  ghost predicate WindowStuck(b: Batch) {
    forall i :: i in Window(b) ==> Stuck(b.leads[i])
  }

  lemma {:induction false} SameWindow(a: seq<DialLead>, b: seq<DialLead>, start: nat, limit: nat)
    requires start <= |a| == |b| && forall i :: 0 <= i < |a| ==> a[i].dialerId == b[i].dialerId
    ensures PendingLeads(a, start, limit) == PendingLeads(b, start, limit)
    decreases |a| - start
  {
    if start < |a| && limit > 0 {
      SameWindow(a, b, start + 1, if a[start].dialerId.None? then limit - 1 else limit);
    }
  }

  lemma SubmittingIsNotStuck(b: Batch, register: set<string>, answers: nat -> Answer, news: seq<Push>)
    requires news != [] && forall p :: p in news ==> NewPush(b.leads, Window(b), register, answers, p)
    ensures !WindowStuck(b)
  {
    assert NewPush(b.leads, Window(b), register, answers, news[0]);
  }

  lemma StepKeepsStuck(b: Batch, e: Event)
    requires WindowStuck(b)
    ensures WindowStuck(Take(b, e)) && Take(b, e).pushes == b.pushes
  {
    match e
    case Stop =>
    case Start(register, answers) =>
      var news := StartEffect(b, register, answers);
      var b' := Take(b, e);
      if news != [] { SubmittingIsNotStuck(b, register, answers, news); }
      assert b.pushes + [] == b.pushes;
      forall i: nat | i < |b.leads|
        ensures b'.leads[i].dialerId == b.leads[i].dialerId && (Stuck(b.leads[i]) ==> Stuck(b'.leads[i]))
      {
        assert LeadStep(b.leads[i], b'.leads[i], i, news);
      }
      SameWindow(b.leads, b'.leads, 0, MAX_HOPPER_INGEST);
  }

  ghost predicate StillStuck(b: Batch, pushes: seq<Push>) {
    WindowStuck(b) && b.pushes == pushes
  }

  lemma StuckForGood(b: Batch, trace: seq<Event>)
    requires WindowStuck(b)
    ensures Run(b, trace).pushes == b.pushes
  {
    var inv := (s: Batch) => StillStuck(s, b.pushes);
    forall s, e | inv(s) ensures inv(Take(s, e)) { StepKeepsStuck(s, e); }
    AlwaysKept(Take, inv, b, trace);
  }

  lemma NotStuckCanSubmit(b: Batch) returns (trace: seq<Event>)
    requires !WindowStuck(b)
    ensures Run(b, trace).pushes != b.pushes
  {
    var answers := (_: nat) => Refused;
    var i :| i in Window(b) && !Stuck(b.leads[i]);
    DialableIsSubmitted(Tally(b.leads, b.pushes, [], 0), Window(b), {}, answers, i);
    RunOneMore(Take, b, [], Start({}, answers));
    trace := [] + [Start({}, answers)];
  }

  /** Runs can submit something exactly when one of the first five hundred pending leads is not
      stuck: stuck leads keep their places at the head, and the leads behind five hundred of them
      are never submitted, however often the run is started. */
  lemma ProgressExact(b: Batch)
    ensures (exists trace :: Run(b, trace).pushes != b.pushes) <==> !WindowStuck(b)
  {
    if WindowStuck(b) {
      forall trace ensures Run(b, trace).pushes == b.pushes { StuckForGood(b, trace); }
    } else {
      var trace := NotStuckCanSubmit(b);
    }
  }

  // ----- which leads are ever submitted -----

  /** How many leads of `leads[lo..hi]` are stuck and without an id. */
  ghost function StuckCount(leads: seq<DialLead>, lo: nat, hi: nat): nat
    requires lo <= hi <= |leads|
    decreases hi - lo
  {
    if lo == hi then 0 else
    StuckCount(leads, lo + 1, hi) + if leads[lo].dialerId.None? && Stuck(leads[lo]) then 1 else 0
  }

  lemma {:induction false} StuckArePending(leads: seq<DialLead>, lo: nat, hi: nat)
    requires lo <= hi <= |leads|
    ensures StuckCount(leads, lo, hi) <= PendingCount(leads, lo, hi)
    ensures StuckCount(leads, lo, hi) < PendingCount(leads, lo, hi) ==>
      exists j :: lo <= j < hi && !Out(leads[j]) && PendingCount(leads, lo, j) == StuckCount(leads, lo, j)
    decreases hi - lo
  {
    if lo < hi {
      StuckArePending(leads, lo + 1, hi);
      if leads[lo].dialerId.None? && !Stuck(leads[lo]) {
        assert PendingCount(leads, lo, lo) == StuckCount(leads, lo, lo) && !Out(leads[lo]);
      } else if StuckCount(leads, lo, hi) < PendingCount(leads, lo, hi) {
        var j :| lo + 1 <= j < hi && !Out(leads[j]) && PendingCount(leads, lo + 1, j) == StuckCount(leads, lo + 1, j);
        assert PendingCount(leads, lo, j) == StuckCount(leads, lo, j);
      }
    }
  }

  lemma {:induction false} StuckOnlyGrow(before: seq<DialLead>, after: seq<DialLead>, lo: nat, hi: nat)
    requires lo <= hi <= |before| == |after|
    requires forall i :: 0 <= i < |before| && before[i].dialerId.None? && Stuck(before[i]) ==>
      after[i].dialerId.None? && Stuck(after[i])
    ensures StuckCount(before, lo, hi) <= StuckCount(after, lo, hi)
    decreases hi - lo
  {
    if lo < hi { StuckOnlyGrow(before, after, lo + 1, hi); }
  }

  lemma {:induction false} StuckUpTo(leads: seq<DialLead>, lo: nat, mid: nat, hi: nat)
    requires lo <= mid <= hi <= |leads|
    ensures StuckCount(leads, lo, mid) <= StuckCount(leads, lo, hi)
    ensures PendingCount(leads, lo, mid) <= PendingCount(leads, lo, hi)
    decreases mid - lo
  {
    if lo < mid { StuckUpTo(leads, lo + 1, mid, hi); }
  }

  /** Lead `i` is behind `MAX_HOPPER_INGEST` stuck leads and has not been submitted since the log
      had `n` entries. */
  ghost predicate BehindSince(b: Batch, i: nat, n: nat) {
    && i < |b.leads| && StuckCount(b.leads, 0, i) >= MAX_HOPPER_INGEST
    && n <= |b.pushes| && forall p :: p in b.pushes[n..] ==> p.lead != i
  }

  lemma StuckStays(before: DialLead, after: DialLead, i: nat, news: seq<Push>)
    requires LeadStep(before, after, i, news) && before.dialerId.None? && Stuck(before)
    requires forall p :: p in news ==> p.lead != i
    ensures after.dialerId.None? && Stuck(after)
  {
    forall id ensures !NamedIn(news, i, id) {
      if NamedIn(news, i, id) { NamedIsSubmitted(news, i, id); }
    }
  }

  lemma StepKeepsBehind(b: Batch, e: Event, i: nat, n: nat)
    requires BehindSince(b, i, n)
    ensures BehindSince(Take(b, e), i, n)
  {
    match e
    case Stop =>
    case Start(register, answers) =>
      var news := StartEffect(b, register, answers);
      var b' := Take(b, e);
      assert b'.pushes[n..] == b.pushes[n..] + news;
      PendingMeaning(b.leads, 0, MAX_HOPPER_INGEST, i);
      StuckArePending(b.leads, 0, i);
      assert i !in Window(b);
      forall j: nat | j < |b.leads| && b.leads[j].dialerId.None? && Stuck(b.leads[j])
        ensures b'.leads[j].dialerId.None? && Stuck(b'.leads[j])
      {
        assert LeadStep(b.leads[j], b'.leads[j], j, news);
        StuckStays(b.leads[j], b'.leads[j], j, news);
      }
      StuckOnlyGrow(b.leads, b'.leads, 0, i);
  }

  /** Lead `i` is submitted in the run. */
  ghost predicate Submits(b: Batch, trace: seq<Event>, i: nat) {
    |b.pushes| <= |Run(b, trace).pushes| && exists p :: p in Run(b, trace).pushes[|b.pushes|..] && p.lead == i
  }

  lemma BehindForGood(b: Batch, trace: seq<Event>, i: nat)
    requires i < |b.leads| && StuckCount(b.leads, 0, i) >= MAX_HOPPER_INGEST
    ensures !Submits(b, trace, i)
  {
    var inv := (s: Batch) => BehindSince(s, i, |b.pushes|);
    forall s, e | inv(s) ensures inv(Take(s, e)) { StepKeepsBehind(s, e, i, |b.pushes|); }
    assert b.pushes[|b.pushes|..] == [];
    AlwaysKept(Take, inv, b, trace);
  }

  // ----- runs of a dialer that accepts everything -----

  ghost function Willing(): nat -> Answer {
    (_: nat) => Accepted(Some("1"))
  }

  ghost predicate PushedLead(pushes: seq<Push>, n: nat, i: nat) {
    exists k :: n <= k < |pushes| && pushes[k].lead == i
  }

  /** A dialer that is never lost is offered every dialable lead of the window. */
  lemma {:induction false} AllAreSubmitted(
      t: Tally, window: seq<nat>, register: set<string>, answers: nat -> Answer, i: nat)
    requires Increasing(window) && forall k :: 0 <= k < |window| ==> window[k] < |t.leads|
    requires (forall j :: !answers(j).Unreachable?) && i in window && Dialable(t.leads[i], register)
    ensures PushedLead(Submit(t, window, register, answers).pushes, |t.pushes|, i)
    decreases |window|
  {
    RestIsLater(window);
    var first := window[0];
    var next, r := SubmitOne(t, first, register, answers(first)), Submit(t, window, register, answers);
    if first == i {
      var news := Submitting(next, window[1..], register, answers);
      assert r.pushes[|t.pushes|].lead == i;
    } else {
      AllAreSubmitted(next, window[1..], register, answers, i);
      var k :| |next.pushes| <= k < |r.pushes| && r.pushes[k].lead == i;
    }
  }

  lemma WillingRun(b: Batch, i: nat) returns (news: seq<Push>)
    requires i in Window(b) && !Stuck(b.leads[i])
    ensures StepEffect(b, Take(b, Start({}, Willing())), {}, Willing(), news)
    ensures exists p :: p in news && p.lead == i
    ensures Take(b, Start({}, Willing())).leads[i].dialerId.Some?
  {
    news := StartEffect(b, {}, Willing());
    var after := Take(b, Start({}, Willing()));
    AllAreSubmitted(Tally(b.leads, b.pushes, [], 0), Window(b), {}, Willing(), i);
    var k :| |b.pushes| <= k < |after.pushes| && after.pushes[k].lead == i;
    var p := news[k - |b.pushes|];
    assert after.pushes[k] == p && p in news;
    assert NewPush(b.leads, Window(b), {}, Willing(), p);
    assert NamedAt(news, k - |b.pushes|, i, "1");
    assert LeadStep(b.leads[i], after.leads[i], i, news);
    assert NamedIn(news, i, "1");
  }

  lemma {:induction false} PendingDrops(before: seq<DialLead>, after: seq<DialLead>, lo: nat, hi: nat, j: nat)
    requires lo <= j < hi <= |before| == |after|
    requires forall i :: 0 <= i < |before| && before[i].dialerId.Some? ==> after[i].dialerId.Some?
    requires before[j].dialerId.None? && after[j].dialerId.Some?
    ensures PendingCount(after, lo, hi) < PendingCount(before, lo, hi)
    decreases hi - lo
  {
    if lo == j { PendingShrinks(before, after, lo + 1, hi); } else { PendingDrops(before, after, lo + 1, hi, j); }
  }

  /** A willing run brings a lead that is not yet in the window nearer to it. */
  lemma WillingRunHelps(b: Batch, i: nat)
    requires i < |b.leads| && !Out(b.leads[i]) && StuckCount(b.leads, 0, i) < MAX_HOPPER_INGEST && i !in Window(b)
    ensures var after := Take(b, Start({}, Willing()));
            && i < |after.leads| && !Out(after.leads[i])
            && StuckCount(after.leads, 0, i) < MAX_HOPPER_INGEST
            && PendingCount(after.leads, 0, i) < PendingCount(b.leads, 0, i)
            && b.pushes <= after.pushes
  {
    PendingMeaning(b.leads, 0, MAX_HOPPER_INGEST, i);
    StuckArePending(b.leads, 0, i);
    var j: nat :| j < i && !Out(b.leads[j]) && PendingCount(b.leads, 0, j) == StuckCount(b.leads, 0, j);
    StuckUpTo(b.leads, 0, j, i);
    PendingMeaning(b.leads, 0, MAX_HOPPER_INGEST, j);
    var news := WillingRun(b, j);
    var after := Take(b, Start({}, Willing()));
    StaysOutside(b, after, Willing(), news, i);
    forall k | 0 <= k < |b.leads| && b.leads[k].dialerId.Some? ensures after.leads[k].dialerId.Some? {
      IdsStay(b, after, {}, Willing(), news, k);
    }
    PendingDrops(b.leads, after.leads, 0, i, j);
    forall k: nat | k < |b.leads| && after.leads[k].dialerId.None? && Stuck(after.leads[k])
      ensures b.leads[k].dialerId.None? && Stuck(b.leads[k])
    {
      assert LeadStep(b.leads[k], after.leads[k], k, news);
    }
    StuckOnlyGrow(after.leads, b.leads, 0, i);
  }

  /** With an empty register a lead outside the window stays as dialable as it was. */
  lemma StaysOutside(b: Batch, after: Batch, answers: nat -> Answer, news: seq<Push>, i: nat)
    requires StepEffect(b, after, {}, answers, news) && i < |b.leads| && i !in Window(b) && !Out(b.leads[i])
    ensures !Out(after.leads[i])
  {
    assert LeadStep(b.leads[i], after.leads[i], i, news);
    forall id ensures !NamedIn(news, i, id) {
      if NamedIn(news, i, id) { NamedIsSubmitted(news, i, id); }
    }
  }

  lemma SubmitsLater(b: Batch, after: Batch, e: Event, rest: seq<Event>, i: nat)
    requires after == Take(b, e) && b.pushes <= after.pushes && Submits(after, rest, i)
    ensures Submits(b, [e] + rest, i)
  {
    RunFromFirst(Take, b, e, rest);
    var pushes := Run(after, rest).pushes;
    var p :| p in pushes[|after.pushes|..] && p.lead == i;
    assert pushes[|after.pushes|..] == pushes[|b.pushes|..][|after.pushes| - |b.pushes|..];
  }

  lemma SubmitsNow(b: Batch, i: nat)
    requires i in Window(b) && !Stuck(b.leads[i])
    ensures Submits(b, [Start({}, Willing())], i)
  {
    var news := WillingRun(b, i);
    RunOneMore(Take, b, [], Start({}, Willing()));
    assert [] + [Start({}, Willing())] == [Start({}, Willing())];
    var pushes := Run(b, [Start({}, Willing())]).pushes;
    assert pushes[|b.pushes|..] == news;
  }

  lemma {:induction false} CanBeSubmitted(b: Batch, i: nat) returns (trace: seq<Event>)
    requires i < |b.leads| && !Out(b.leads[i]) && StuckCount(b.leads, 0, i) < MAX_HOPPER_INGEST
    ensures Submits(b, trace, i)
    decreases PendingCount(b.leads, 0, i)
  {
    if i in Window(b) {
      SubmitsNow(b, i);
      trace := [Start({}, Willing())];
    } else {
      WillingRunHelps(b, i);
      var rest := CanBeSubmitted(Take(b, Start({}, Willing())), i);
      SubmitsLater(b, Take(b, Start({}, Willing())), Start({}, Willing()), rest, i);
      trace := [Start({}, Willing())] + rest;
    }
  }

  lemma OutIsNotSubmitted(b: Batch, trace: seq<Event>, i: nat)
    requires i < |b.leads| && Out(b.leads[i])
    ensures !Submits(b, trace, i)
  {
    OutForGood(b, trace, i);
  }

  /** Starting the run again and again can reach a lead exactly when it is neither out nor behind
      five hundred pending leads that are stuck. */
  lemma SubmittableExactly(b: Batch, i: nat)
    requires i < |b.leads|
    ensures (exists trace :: Submits(b, trace, i)) <==>
      !Out(b.leads[i]) && StuckCount(b.leads, 0, i) < 500
  {
    if Out(b.leads[i]) {
      forall trace ensures !Submits(b, trace, i) { OutIsNotSubmitted(b, trace, i); }
    } else if StuckCount(b.leads, 0, i) >= MAX_HOPPER_INGEST {
      forall trace ensures !Submits(b, trace, i) { BehindForGood(b, trace, i); }
    } else {
      var trace := CanBeSubmitted(b, i);
    }
  }
}
