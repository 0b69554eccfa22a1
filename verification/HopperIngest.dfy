/** Starting and stopping the dialer run of an imported batch: a run hands the oldest leads that
    have no dialer id to the dialer, at most five hundred at a time. */
module HopperIngest {
  import opened Prelude
  import opened Text

  /** A lead of the batch; `phone` is its normalized or raw number, empty when it has neither. */
  datatype DialLead = DialLead(phone: string, status: string, suppressed: bool, dialerId: Option<string>)

  /** The dialer's answer to one submission.  It may accept a lead without naming an id. */
  datatype Answer = Unreachable | Refused | Accepted(dialerId: Option<string>)

  datatype Push = Push(lead: nat, phone: string, answer: Answer)

  datatype RunStatus = Idle | Running | Interrupted

  /** The leads of the batch in submission order, the state of its run, and the log of everything
      submitted to the dialer. */
  datatype Batch = Batch(leads: seq<DialLead>, status: RunStatus, active: bool, runCount: nat, pushes: seq<Push>)

  datatype Reply = NothingToSubmit | IngestFailed | Started(submitted: nat, accepted: nat, rejected: nat)

  const MAX_HOPPER_INGEST := 500

  /** The positions of the leads without a dialer id, from `start` on, at most `limit`. */
  function PendingLeads(leads: seq<DialLead>, start: nat, limit: nat): (p: seq<nat>)
    requires start <= |leads|
    ensures forall k :: 0 <= k < |p| ==> start <= p[k] < |leads| && leads[p[k]].dialerId.None?
    ensures forall j, k :: 0 <= j < k < |p| ==> p[j] < p[k]
    decreases |leads| - start
  {
    if start == |leads| || limit == 0 then []
    else if leads[start].dialerId.None? then [start] + PendingLeads(leads, start + 1, limit - 1)
    else PendingLeads(leads, start + 1, limit)
  }

  function Window(b: Batch): seq<nat> {
    PendingLeads(b.leads, 0, MAX_HOPPER_INGEST)
  }

  predicate OptedOut(status: string) {
    Lower(status) in {"dnc", "suppressed", "opt-out", "opt_out", "do not call"}
  }

  /** The do-not-call guard. */
  predicate Blocked(lead: DialLead, register: set<string>) {
    lead.phone in register || lead.suppressed || OptedOut(lead.status)
  }

  predicate Dialable(lead: DialLead, register: set<string>) {
    lead.phone != "" && !Blocked(lead, register)
  }

  predicate Names(answer: Answer) {
    answer.Accepted? && answer.dialerId.Some?
  }

  /** What a run has done so far: the leads with the flags it set, the submissions, the leads that
      were given an id, and the number of error lines. */
  datatype Tally = Tally(leads: seq<DialLead>, pushes: seq<Push>, pairs: seq<(nat, string)>, errors: nat)

  /** What becomes of the lead at position `i`: skipped, flagged or submitted. */
  function SubmitOne(t: Tally, i: nat, register: set<string>, answer: Answer): (r: Tally)
    requires i < |t.leads|
    ensures |r.leads| == |t.leads|
  {
    var lead := t.leads[i];
    if lead.phone == "" then t.(errors := t.errors + 1)
    else if Blocked(lead, register) then
      t.(leads := t.leads[i := lead.(suppressed := true)], errors := t.errors + 1)
    else t.(
      pushes := t.pushes + [Push(i, lead.phone, answer)],
      pairs := if Names(answer) then t.pairs + [(i, answer.dialerId.value)] else t.pairs,
      errors := if answer.Accepted? then t.errors else t.errors + 1)
  }

  /** Going through the window until the dialer cannot be reached.  `answers(i)` is the dialer's
      answer for lead `i`. */
  function Submit(t: Tally, window: seq<nat>, register: set<string>, answers: nat -> Answer): (r: Tally)
    requires forall k :: 0 <= k < |window| ==> window[k] < |t.leads|
    ensures |r.leads| == |t.leads|
    decreases |window|
  {
    if window == [] then t else
    var i := window[0];
    var next := SubmitOne(t, i, register, answers(i));
    if Dialable(t.leads[i], register) && answers(i).Unreachable? then next
    else Submit(next, window[1..], register, answers)
  }

  function WithIds(leads: seq<DialLead>, pairs: seq<(nat, string)>): (r: seq<DialLead>)
    ensures |r| == |leads|
  {
    if pairs == [] then leads else
    var front, (i, id) := WithIds(leads, pairs[..|pairs| - 1]), pairs[|pairs| - 1];
    if i < |front| then front[i := front[i].(dialerId := Some(id))] else front
  }

  /** One run.  Without a named lead the batch goes idle; without a pending one nothing happens. */
  function StartedRun(b: Batch, register: set<string>, answers: nat -> Answer): (Batch, Reply) {
    var window := Window(b);
    if window == [] then (b, NothingToSubmit) else
    var t := Submit(Tally(b.leads, b.pushes, [], 0), window, register, answers);
    if t.pairs == [] then (Batch(t.leads, Idle, false, b.runCount, t.pushes), IngestFailed)
    else (Batch(WithIds(t.leads, t.pairs), Running, true, b.runCount + 1, t.pushes),
          Started(|window|, |t.pairs|, t.errors))
  }

  function StoppedRun(b: Batch): Batch {
    b.(status := Interrupted, active := false)
  }

  class Hopper {
    var leads: seq<DialLead>
    var status: RunStatus
    var active: bool
    var runCount: nat
    var pushes: seq<Push>

    constructor (leads: seq<DialLead>)
      ensures State() == Batch(leads, Idle, false, 0, [])
    {
      this.leads, status, active, runCount, pushes := leads, Idle, false, 0, [];
    }

    ghost function State(): Batch
      reads this
    {
      Batch(leads, status, active, runCount, pushes)
    }

    method StopRun()
      modifies this`status, this`active
      ensures State() == StoppedRun(old(State()))
    {
      status, active := Interrupted, false;
    }

    method StartRun(register: set<string>, answers: nat -> Answer) returns (reply: Reply)
      modifies this
      ensures (State(), reply) == StartedRun(old(State()), register, answers)
    {
      var window := PendingLeads(leads, 0, MAX_HOPPER_INGEST);
      if window == [] { return NothingToSubmit; }
      var pairs, errors := SubmitAll(window, register, answers);
      if pairs == [] {
        status, active := Idle, false;
        return IngestFailed;
      }
      SetDialerIds(pairs);
      runCount, status, active := runCount + 1, Running, true;
      reply := Started(|window|, |pairs|, errors);
    }

    method SubmitAll(window: seq<nat>, register: set<string>, answers: nat -> Answer)
      returns (pairs: seq<(nat, string)>, errors: nat)
      requires forall k :: 0 <= k < |window| ==> window[k] < |leads|
      modifies this`leads, this`pushes
      ensures Tally(leads, pushes, pairs, errors) ==
        Submit(Tally(old(leads), old(pushes), [], 0), window, register, answers)
    {
      pairs, errors := [], 0;
      ghost var goal := Submit(Tally(leads, pushes, [], 0), window, register, answers);
      for k := 0 to |window|
        invariant |leads| == |old(leads)|
        invariant Submit(Tally(leads, pushes, pairs, errors), window[k..], register, answers) == goal
      {
        var i := window[k];
        assert window[k..][0] == i && window[k..][1..] == window[k + 1..];
        var lead := leads[i];
        if lead.phone == "" {
          errors := errors + 1;
          continue;
        }
        if lead.phone in register || lead.suppressed || OptedOut(lead.status) {
          leads := leads[i := lead.(suppressed := true)];
          errors := errors + 1;
          continue;
        }
        pushes := pushes + [Push(i, lead.phone, answers(i))];
        match answers(i) {
          case Unreachable =>
            errors := errors + 1;
            return;
          case Refused => errors := errors + 1;
          case Accepted(id) => if id.Some? { pairs := pairs + [(i, id.value)]; }
        }
      }
    }

    method SetDialerIds(pairs: seq<(nat, string)>)
      modifies this`leads
      ensures leads == WithIds(old(leads), pairs)
    {
      for k := 0 to |pairs|
        invariant leads == WithIds(old(leads), pairs[..k])
      {
        assert pairs[..k + 1][..k] == pairs[..k];
        var (i, id) := pairs[k];
        if i < |leads| { leads := leads[i := leads[i].(dialerId := Some(id))]; }
      }
      assert pairs[..|pairs|] == pairs;
    }
  }
}
