/** Exactly what a dialer run does: which leads it reaches, which of them it submits and which it
    flags, and what it reports. */
module HopperEffects {
  import opened Prelude
  import opened Text
  import opened HopperIngest
  import opened HopperTheorems

  /** The lead has a number that is not on the register, and is neither flagged nor opted out. */
  ghost predicate CanDial(lead: DialLead, register: set<string>) {
    && lead.phone != "" && lead.phone !in register && !lead.suppressed
    && Lower(lead.status) !in {"dnc", "suppressed", "opt-out", "opt_out", "do not call"}
  }

  /** Submitting this lead loses the dialer. */
  ghost predicate LosesDialer(leads: seq<DialLead>, register: set<string>, answers: nat -> Answer, i: nat) {
    i < |leads| && CanDial(leads[i], register) && answers(i).Unreachable?
  }

  /** The run reaches the first `reach` leads of the window: all of them, or those up to the one that
      loses the dialer. */
  ghost predicate Reaches(
      leads: seq<DialLead>, window: seq<nat>, register: set<string>, answers: nat -> Answer, reach: nat) {
    && reach <= |window|
    && (forall k :: 0 <= k < reach - 1 ==> !LosesDialer(leads, register, answers, window[k]))
    && (reach < |window| ==> reach > 0 && LosesDialer(leads, register, answers, window[reach - 1]))
  }

  /** The submissions of the leads that can be dialed, in order, with the dialer's answers. */
  ghost function PushesFor(
      leads: seq<DialLead>, reached: seq<nat>, register: set<string>, answers: nat -> Answer): seq<Push> {
    if reached == [] then [] else
    var i, rest := reached[0], PushesFor(leads, reached[1..], register, answers);
    if i < |leads| && CanDial(leads[i], register) then [Push(i, leads[i].phone, answers(i))] + rest else rest
  }

  /** The leads the dialer named an id for, with their ids. */
  ghost function NamedBy(pushes: seq<Push>): seq<(nat, string)> {
    if pushes == [] then [] else
    var p, rest := pushes[0], NamedBy(pushes[1..]);
    if p.answer.Accepted? && p.answer.dialerId.Some? then [(p.lead, p.answer.dialerId.value)] + rest else rest
  }

  /** A lead that has a number and cannot be dialed is flagged when it is reached, and no other. */
  ghost predicate FlaggedAt(
      before: seq<DialLead>, after: seq<DialLead>, reached: seq<nat>, register: set<string>, i: nat) {
    i < |before| == |after| ==>
      after[i] == if i in reached && before[i].phone != "" && !CanDial(before[i], register)
                  then before[i].(suppressed := true) else before[i]
  }

  ghost predicate Outcome(
      t: Tally, r: Tally, reached: seq<nat>, register: set<string>, answers: nat -> Answer) {
    var news := PushesFor(t.leads, reached, register, answers);
    && r.pushes == t.pushes + news
    && r.pairs == t.pairs + NamedBy(news)
    && r.errors + AcceptedCount(news) == t.errors + |reached|
    && |r.leads| == |t.leads| && forall i: nat :: FlaggedAt(t.leads, r.leads, reached, register, i)
  }

  lemma {:induction false} SameLater(
      a: seq<DialLead>, b: seq<DialLead>, reached: seq<nat>, register: set<string>, answers: nat -> Answer)
    requires |a| == |b| && forall k :: 0 <= k < |reached| ==> reached[k] < |a| && a[reached[k]] == b[reached[k]]
    ensures PushesFor(a, reached, register, answers) == PushesFor(b, reached, register, answers)
  {
    if reached != [] { SameLater(a, b, reached[1..], register, answers); }
  }

  /** One lead of the window. */
  lemma OneLead(t: Tally, i: nat, register: set<string>, answer: Answer)
    requires i < |t.leads|
    ensures var r, lead := SubmitOne(t, i, register, answer), t.leads[i];
            && (CanDial(lead, register) <==> Dialable(lead, register))
            && (lead.phone == "" ==> r == t.(errors := t.errors + 1))
            && (lead.phone != "" && !CanDial(lead, register) ==>
                  r == t.(leads := t.leads[i := lead.(suppressed := true)], errors := t.errors + 1))
            && (CanDial(lead, register) ==>
                  r == Tally(t.leads, t.pushes + [Push(i, lead.phone, answer)],
                             t.pairs + NamedBy([Push(i, lead.phone, answer)]),
                             t.errors + if answer.Accepted? then 0 else 1))
  {
    assert [Push(i, t.leads[i].phone, answer)][1..] == [];
    assert t.pairs + [] == t.pairs;
  }

  lemma NamedByBoth(p: Push, rest: seq<Push>)
    ensures NamedBy([p] + rest) == NamedBy([p]) + NamedBy(rest)
    ensures AcceptedCount([p] + rest) == AcceptedCount([p]) + AcceptedCount(rest)
  {
    assert ([p] + rest)[1..] == rest && [p][1..] == [];
  }

  /** What the rest of the window does to the flags, seen from before the first lead. */
  lemma FlagsInFront(
      leads: seq<DialLead>, next: seq<DialLead>, after: seq<DialLead>, first: nat, rest: seq<nat>,
      register: set<string>)
    requires first < |leads| == |next| == |after| && first !in rest
    requires next[first] == if leads[first].phone != "" && !CanDial(leads[first], register)
                            then leads[first].(suppressed := true) else leads[first]
    requires forall i :: 0 <= i < |leads| && i != first ==> next[i] == leads[i]
    requires forall i: nat :: FlaggedAt(next, after, rest, register, i)
    ensures forall i: nat :: FlaggedAt(leads, after, [first] + rest, register, i)
  {
    forall i: nat ensures FlaggedAt(leads, after, [first] + rest, register, i) {
      assert FlaggedAt(next, after, rest, register, i);
      assert i in [first] + rest <==> i == first || i in rest;
    }
  }

  /** The first lead in front of what the rest of the window does. */
  lemma InFront(
      t: Tally, next: Tally, r: Tally, first: nat, rest: seq<nat>, register: set<string>, answers: nat -> Answer)
    requires first < |t.leads| && next == SubmitOne(t, first, register, answers(first))
    requires forall k :: 0 <= k < |rest| ==> first < rest[k] < |t.leads|
    requires Outcome(next, r, rest, register, answers)
    ensures Outcome(t, r, [first] + rest, register, answers)
  {
    OneLead(t, first, register, answers(first));
    SameLater(next.leads, t.leads, rest, register, answers);
    var later, all :=
      PushesFor(t.leads, rest, register, answers), PushesFor(t.leads, [first] + rest, register, answers);
    PushesInFront(t.leads, first, rest, register, answers);
    FlagsInFront(t.leads, next.leads, r.leads, first, rest, register);
    if CanDial(t.leads[first], register) {
      CountsInFront(t, next, r, Push(first, t.leads[first].phone, answers(first)), later, all);
    }
  }

  lemma CountsInFront(t: Tally, next: Tally, r: Tally, p: Push, later: seq<Push>, all: seq<Push>)
    requires [p] + later == all
    requires next.pushes == t.pushes + [p] && next.pairs == t.pairs + NamedBy([p])
    requires next.errors == t.errors + if p.answer.Accepted? then 0 else 1
    requires r.pushes == next.pushes + later && r.pairs == next.pairs + NamedBy(later)
    ensures r.pushes == t.pushes + all && r.pairs == t.pairs + NamedBy(all)
    ensures next.errors + AcceptedCount(all) == t.errors + 1 + AcceptedCount(later)
  {
    NamedByBoth(p, later);
    OneAccepted(p);
    Regroup(t.pushes, [p], later);
    Regroup(t.pairs, NamedBy([p]), NamedBy(later));
  }

  lemma Regroup<T>(a: seq<T>, b: seq<T>, c: seq<T>)
    ensures a + b + c == a + (b + c)
  {
  }

  lemma OneAccepted(p: Push)
    ensures AcceptedCount([p]) == if p.answer.Accepted? then 1 else 0
  {
    assert [p][1..] == [];
  }

  lemma PushesInFront(leads: seq<DialLead>, first: nat, rest: seq<nat>, register: set<string>, answers: nat -> Answer)
    requires first < |leads|
    ensures PushesFor(leads, [first] + rest, register, answers) ==
      (if CanDial(leads[first], register) then [Push(first, leads[first].phone, answers(first))] else [])
      + PushesFor(leads, rest, register, answers)
  {
    assert ([first] + rest)[1..] == rest;
  }

  lemma NothingReached(t: Tally, register: set<string>, answers: nat -> Answer)
    ensures Outcome(t, t, [], register, answers)
  {
  }

  /** Going through the window: the leads reached are submitted, flagged or skipped as they stood when
      the run began, and each that was not accepted is an error. */
  lemma {:induction false} WindowExactly(t: Tally, window: seq<nat>, register: set<string>, answers: nat -> Answer)
    returns (reach: nat)
    requires Increasing(window) && forall k :: 0 <= k < |window| ==> window[k] < |t.leads|
    ensures Reaches(t.leads, window, register, answers, reach)
    ensures Outcome(t, Submit(t, window, register, answers), window[..reach], register, answers)
    decreases |window|
  {
    if window == [] {
      NothingReached(t, register, answers);
      return 0;
    }
    var first, rest := window[0], window[1..];
    var next := SubmitOne(t, first, register, answers(first));
    RestIsLater(window);
    OneLead(t, first, register, answers(first));
    if LosesDialer(t.leads, register, answers, first) {
      NothingReached(next, register, answers);
      InFront(t, next, next, first, [], register, answers);
      assert window[..1] == [first] + [];
      return 1;
    }
    var more := WindowExactly(next, rest, register, answers);
    reach := more + 1;
    InFront(t, next, Submit(next, rest, register, answers), first, rest[..more], register, answers);
    assert window[..reach] == [first] + rest[..more];
    LaterReach(t.leads, next.leads, window, register, answers, more);
  }

  lemma LaterReach(
      leads: seq<DialLead>, later: seq<DialLead>, window: seq<nat>, register: set<string>, answers: nat -> Answer,
      more: nat)
    requires window != [] && Reaches(later, window[1..], register, answers, more) && |later| == |leads|
    requires forall k :: 0 < k < |window| ==> window[k] < |leads| && later[window[k]] == leads[window[k]]
    requires !LosesDialer(leads, register, answers, window[0])
    ensures Reaches(leads, window, register, answers, more + 1)
  {
    forall k | 0 <= k < more ensures !LosesDialer(leads, register, answers, window[k]) {
      if k > 0 { assert window[1..][k - 1] == window[k]; }
    }
    if more + 1 < |window| { assert window[1..][more - 1] == window[more]; }
  }

  /** What a start answers, and how it leaves the batch, given what it submitted. */
  ghost predicate Answers(b: Batch, after: Batch, reply: Reply, reach: nat, news: seq<Push>) {
    var named := NamedBy(news);
    && after.pushes == b.pushes + news
    && (reply == NothingToSubmit <==> Window(b) == [])
    && (reply == NothingToSubmit ==> after == b)
    && (reply == IngestFailed <==> Window(b) != [] && named == [])
    && (reply == IngestFailed ==> after.status == Idle && !after.active && after.runCount == b.runCount)
    && (reply.Started? ==>
          && after.status == Running && after.active && after.runCount == b.runCount + 1
          && reply.submitted == |Window(b)| && reply.accepted == |named|
          && reply.rejected + AcceptedCount(news) == reach)
  }

  /** What a start does to one lead: its id if the dialer named one, and the flag if it is reached and
      cannot be dialed. */
  ghost predicate LeadAfter(
      b: Batch, after: Batch, reached: seq<nat>, register: set<string>, named: seq<(nat, string)>, i: nat) {
    i < |b.leads| == |after.leads| ==>
      && (forall id :: (i, id) in named ==> after.leads[i].dialerId == Some(id))
      && ((forall id :: (i, id) !in named) ==> after.leads[i].dialerId == b.leads[i].dialerId)
      && (after.leads[i].suppressed <==>
            b.leads[i].suppressed || (i in reached && b.leads[i].phone != "" && !CanDial(b.leads[i], register)))
      && after.leads[i].phone == b.leads[i].phone && after.leads[i].status == b.leads[i].status
  }

  /** One start of the run.  Without pending leads nothing happens.  Otherwise the leads of the window
      are gone through; if the dialer names none the batch goes idle, and else it runs, the named leads
      have their ids, and the answer counts the window, the named leads and the errors. */
  lemma StartExactly(b: Batch, register: set<string>, answers: nat -> Answer) returns (reach: nat)
    ensures Reaches(b.leads, Window(b), register, answers, reach)
    ensures var (after, reply) := StartedRun(b, register, answers);
            var reached := Window(b)[..reach];
            var news := PushesFor(b.leads, reached, register, answers);
            && Answers(b, after, reply, reach, news)
            && |after.leads| == |b.leads|
            && forall i: nat :: LeadAfter(b, after, reached, register, NamedBy(news), i)
  {
    var start := Tally(b.leads, b.pushes, [], 0);
    reach := WindowExactly(start, Window(b), register, answers);
    var t, reached := Submit(start, Window(b), register, answers), Window(b)[..reach];
    var news := PushesFor(b.leads, reached, register, answers);
    assert [] + NamedBy(news) == NamedBy(news);
    AnswerOf(b, register, answers, t, reach, news);
    StartLeads(b, register, answers, t, reached);
  }

  lemma StartLeads(b: Batch, register: set<string>, answers: nat -> Answer, t: Tally, reached: seq<nat>)
    requires t == Submit(Tally(b.leads, b.pushes, [], 0), Window(b), register, answers)
    requires Increasing(reached) && |t.leads| == |b.leads|
    requires t.pairs == NamedBy(PushesFor(b.leads, reached, register, answers))
    requires Window(b) == [] ==> reached == []
    requires forall i: nat :: FlaggedAt(b.leads, t.leads, reached, register, i)
    ensures var after := StartedRun(b, register, answers).0;
            |after.leads| == |b.leads| && forall i: nat :: LeadAfter(b, after, reached, register, t.pairs, i)
  {
    var news, after := PushesFor(b.leads, reached, register, answers), StartedRun(b, register, answers).0;
    PushesInOrder(b.leads, reached, register, answers);
    NamedOnce(news);
    forall i: nat ensures LeadAfter(b, after, reached, register, t.pairs, i) {
      assert FlaggedAt(b.leads, t.leads, reached, register, i);
      if i < |b.leads| { SettledLead(b, after, t, reached, register, i); }
    }
  }

  lemma AnswerOf(b: Batch, register: set<string>, answers: nat -> Answer, t: Tally, reach: nat, news: seq<Push>)
    requires t == Submit(Tally(b.leads, b.pushes, [], 0), Window(b), register, answers)
    requires t.pushes == b.pushes + news && t.pairs == NamedBy(news) && t.errors + AcceptedCount(news) == reach
    requires Window(b) == [] ==> news == []
    ensures Answers(b, StartedRun(b, register, answers).0, StartedRun(b, register, answers).1, reach, news)
  {
    assert b.pushes + [] == b.pushes;
  }

  lemma SettledLead(b: Batch, after: Batch, t: Tally, reached: seq<nat>, register: set<string>, i: nat)
    requires i < |b.leads| == |t.leads| && FlaggedAt(b.leads, t.leads, reached, register, i)
    requires Window(b) == [] ==> after == b && reached == [] && t.leads == b.leads && t.pairs == []
    requires Window(b) != [] ==> after.leads == if t.pairs == [] then t.leads else WithIds(t.leads, t.pairs)
    requires forall p, q :: p in t.pairs && q in t.pairs && p.0 == q.0 ==> p == q
    ensures LeadAfter(b, after, reached, register, t.pairs, i)
  {
    IdsAt(t.leads, t.pairs, i);
  }

  lemma {:induction false} PushesReach(
      leads: seq<DialLead>, reached: seq<nat>, register: set<string>, answers: nat -> Answer)
    ensures forall p :: p in PushesFor(leads, reached, register, answers) ==> p.lead in reached
  {
    if reached != [] {
      PushesReach(leads, reached[1..], register, answers);
      assert forall i :: i in reached[1..] ==> i in reached;
    }
  }

  lemma {:induction false} PushesInOrder(
      leads: seq<DialLead>, reached: seq<nat>, register: set<string>, answers: nat -> Answer)
    requires Increasing(reached)
    ensures InOrder(PushesFor(leads, reached, register, answers))
  {
    if reached != [] {
      var rest := PushesFor(leads, reached[1..], register, answers);
      RestIsLater(reached);
      PushesInOrder(leads, reached[1..], register, answers);
      PushesReach(leads, reached[1..], register, answers);
      forall k | 0 <= k < |rest| ensures reached[0] < rest[k].lead { assert rest[k] in rest; }
    }
  }

  lemma {:induction false} NamedOnce(pushes: seq<Push>)
    requires InOrder(pushes)
    ensures forall p, q :: p in NamedBy(pushes) && q in NamedBy(pushes) && p.0 == q.0 ==> p == q
    ensures forall p :: p in NamedBy(pushes) ==> exists k :: 0 <= k < |pushes| && pushes[k].lead == p.0
  {
    if pushes != [] {
      NamedOnce(pushes[1..]);
      forall p | p in NamedBy(pushes[1..]) ensures exists k :: 0 < k < |pushes| && pushes[k].lead == p.0 {
        var k :| 0 <= k < |pushes[1..]| && pushes[1..][k].lead == p.0;
        assert pushes[k + 1].lead == p.0;
      }
    }
  }

  lemma IdsAt(leads: seq<DialLead>, pairs: seq<(nat, string)>, i: nat)
    requires i < |leads| && forall p, q :: p in pairs && q in pairs && p.0 == q.0 ==> p == q
    ensures var after := WithIds(leads, pairs);
            && (forall id :: (i, id) in pairs ==> after[i].dialerId == Some(id))
            && ((forall id :: (i, id) !in pairs) ==> after[i].dialerId == leads[i].dialerId)
            && after[i].(dialerId := leads[i].dialerId) == leads[i]
  {
    if p :| p in pairs && p.0 == i {
      WithIdsAt(leads, pairs, i, p.1);
      assert p == (i, p.1);
    } else {
      WithIdsAt(leads, pairs, i, "");
    }
  }

  /** A stop only marks the batch: its leads, its log and its count of runs stay. */
  lemma StopExactly(b: Batch)
    ensures Take(b, Stop) == Batch(b.leads, Interrupted, false, b.runCount, b.pushes)
  {
  }
}
