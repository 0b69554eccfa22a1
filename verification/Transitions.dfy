/** Runs of a transition function, and the laws of runs that the protocols share. */
module Transitions {

  /** The state after a trace of events. */
  ghost function RunOf<S, E>(step: (S, E) -> S, init: S, trace: seq<E>): S {
    if trace == [] then init else step(RunOf(step, init, trace[..|trace| - 1]), trace[|trace| - 1])
  }

  lemma RunOneMore<S, E>(step: (S, E) -> S, init: S, trace: seq<E>, e: E)
    ensures RunOf(step, init, trace + [e]) == step(RunOf(step, init, trace), e)
  {
    assert (trace + [e])[..|trace|] == trace;
  }

  lemma {:induction false} RunConcat<S, E>(step: (S, E) -> S, init: S, a: seq<E>, b: seq<E>)
    ensures RunOf(step, init, a + b) == RunOf(step, RunOf(step, init, a), b)
  {
    if b == [] {
      assert a + b == a;
    } else {
      assert (a + b)[..|a + b| - 1] == a + b[..|b| - 1];
      RunConcat(step, init, a, b[..|b| - 1]);
    }
  }

  lemma RunFromFirst<S, E>(step: (S, E) -> S, init: S, first: E, rest: seq<E>)
    ensures RunOf(step, init, [first] + rest) == RunOf(step, step(init, first), rest)
  {
    RunConcat(step, init, [first], rest);
    assert [first][..0] == [];
    assert RunOf(step, init, [first]) == step(init, first);
  }

  /** Event `i` has the property in the state it happens in. */
  ghost predicate HappensAt<S, E>(step: (S, E) -> S, p: (S, E) -> bool, init: S, trace: seq<E>, i: int) {
    0 <= i < |trace| && p(RunOf(step, init, trace[..i]), trace[i])
  }

  lemma HappensInPrefix<S, E>(step: (S, E) -> S, p: (S, E) -> bool, init: S, trace: seq<E>, n: nat, i: nat)
    requires i < n <= |trace|
    ensures HappensAt(step, p, init, trace[..n], i) <==> HappensAt(step, p, init, trace, i)
  {
    assert trace[..n][..i] == trace[..i];
  }

  /** Every event is possible in the state it happens in. */
  ghost predicate Possible<S, E>(step: (S, E) -> S, can: (S, E) -> bool, init: S, trace: seq<E>) {
    forall i :: 0 <= i < |trace| ==> HappensAt(step, can, init, trace, i)
  }

  /** What every possible event keeps holds from the point where it first holds. */
  lemma {:induction false} KeptFrom<S(!new), E(!new)>(
      step: (S, E) -> S, can: (S, E) -> bool, inv: S -> bool, init: S, trace: seq<E>, i: nat, j: nat)
    requires Possible(step, can, init, trace) && i <= j <= |trace| && inv(RunOf(step, init, trace[..i]))
    requires forall s, e :: inv(s) && can(s, e) ==> inv(step(s, e))
    ensures inv(RunOf(step, init, trace[..j]))
    decreases j
  {
    if i < j {
      KeptFrom(step, can, inv, init, trace, i, j - 1);
      assert trace[..j][..j - 1] == trace[..j - 1];
      assert HappensAt(step, can, init, trace, j - 1);
    }
  }

  /** What every event keeps holds from the point where it first holds. */
  lemma {:induction false} AlwaysKept<S(!new), E(!new)>(step: (S, E) -> S, inv: S -> bool, init: S, trace: seq<E>)
    requires inv(init)
    requires forall s, e :: inv(s) ==> inv(step(s, e))
    ensures inv(RunOf(step, init, trace))
  {
    if trace != [] { AlwaysKept(step, inv, init, trace[..|trace| - 1]); }
  }

  /** The property holds after the first `n` events. */
  ghost predicate HoldsAfter<S, E>(step: (S, E) -> S, inv: S -> bool, init: S, trace: seq<E>, n: int) {
    0 <= n <= |trace| && inv(RunOf(step, init, trace[..n]))
  }

  /** The property holds at every point of the run. */
  ghost predicate Throughout<S, E>(step: (S, E) -> S, inv: S -> bool, init: S, trace: seq<E>) {
    forall n :: 0 <= n <= |trace| ==> HoldsAfter(step, inv, init, trace, n)
  }

  lemma HoldsAfterStep<S, E>(step: (S, E) -> S, inv: S -> bool, init: S, trace: seq<E>, n: nat)
    requires n < |trace|
    ensures HoldsAfter(step, inv, init, trace, n + 1) <==> inv(step(RunOf(step, init, trace[..n]), trace[n]))
  {
    assert trace[..n + 1][..n] == trace[..n];
  }

  /** What an event keeps exactly when `keeps` allows it holds throughout a run exactly when it
      holds at first and every event is allowed in the state it happens in. */
  lemma KeptExactly<S(!new), E(!new)>(
      step: (S, E) -> S, keeps: (S, E) -> bool, inv: S -> bool, init: S, trace: seq<E>)
    requires forall s, e :: inv(s) ==> (inv(step(s, e)) <==> keeps(s, e))
    ensures Throughout(step, inv, init, trace) <==> inv(init) && Possible(step, keeps, init, trace)
  {
    if Throughout(step, inv, init, trace) {
      assert HoldsAfter(step, inv, init, trace, 0) && trace[..0] == [];
      forall i | 0 <= i < |trace| ensures HappensAt(step, keeps, init, trace, i) {
        assert HoldsAfter(step, inv, init, trace, i) && HoldsAfter(step, inv, init, trace, i + 1);
        HoldsAfterStep(step, inv, init, trace, i);
      }
    }
    if inv(init) && Possible(step, keeps, init, trace) {
      forall n: nat | n <= |trace| ensures HoldsAfter(step, inv, init, trace, n) {
        assert trace[..0] == [];
        KeptFrom(step, keeps, inv, init, trace, 0, n);
      }
    }
  }

  // ----- redelivery -----

  /** A system in which every event carries a message, an event that is `applied` leaves its
      message `absorbed`, absorption lasts, and an event whose message is absorbed does nothing. */
  ghost predicate Absorbing<S(!new), E(!new), M(!new)>(
      step: (S, E) -> S, inv: S -> bool, message: E -> M, applied: (S, E) -> bool, absorbed: (S, M) -> bool) {
    && (forall s, e :: inv(s) ==> inv(step(s, e)))
    && (forall s, e :: inv(s) && applied(s, e) ==> absorbed(step(s, e), message(e)))
    && (forall s, e, m :: inv(s) && absorbed(s, m) ==> absorbed(step(s, e), m))
    && (forall s, e :: inv(s) && absorbed(s, message(e)) ==> step(s, e) == s)
  }

  ghost predicate AppliedBefore<S, E>(
      step: (S, E) -> S, applied: (S, E) -> bool, init: S, trace: seq<E>, j: int, i: int) {
    0 <= j < i < |trace| && HappensAt(step, applied, init, trace, j)
  }

  /** Event `i` carries a message that an earlier event of the trace had applied. */
  ghost predicate Repeats<S, E, M>(
      step: (S, E) -> S, message: E -> M, applied: (S, E) -> bool, init: S, trace: seq<E>, i: int) {
    exists j :: AppliedBefore(step, applied, init, trace, j, i) && message(trace[j]) == message(trace[i])
  }

  function Kept<E>(trace: seq<E>, keep: seq<bool>): seq<E>
    requires |trace| == |keep|
  {
    if trace == [] then [] else
    var front := Kept(trace[..|trace| - 1], keep[..|keep| - 1]);
    if keep[|keep| - 1] then front + [trace[|trace| - 1]] else front
  }

  lemma {:induction false} AbsorbedEverAfter<S(!new), E(!new), M(!new)>(
      step: (S, E) -> S, inv: S -> bool, message: E -> M, applied: (S, E) -> bool, absorbed: (S, M) -> bool,
      init: S, trace: seq<E>, j: nat, k: nat)
    requires Absorbing(step, inv, message, applied, absorbed) && inv(init)
    requires j < k <= |trace| && HappensAt(step, applied, init, trace, j)
    ensures inv(RunOf(step, init, trace[..k])) && absorbed(RunOf(step, init, trace[..k]), message(trace[j]))
  {
    assert trace[..k][..k - 1] == trace[..k - 1];
    AlwaysKept(step, inv, init, trace[..k - 1]);
    if k > j + 1 { AbsorbedEverAfter(step, inv, message, applied, absorbed, init, trace, j, k - 1); }
  }

  /** The last event of a trace, if it repeats an applied message, changes nothing. */
  lemma RepeatIsNoOp<S(!new), E(!new), M(!new)>(
      step: (S, E) -> S, inv: S -> bool, message: E -> M, applied: (S, E) -> bool, absorbed: (S, M) -> bool,
      init: S, trace: seq<E>)
    requires Absorbing(step, inv, message, applied, absorbed) && inv(init)
    requires trace != [] && Repeats(step, message, applied, init, trace, |trace| - 1)
    ensures RunOf(step, init, trace) == RunOf(step, init, trace[..|trace| - 1])
  {
    var n := |trace| - 1;
    var j :| AppliedBefore(step, applied, init, trace, j, n) && message(trace[j]) == message(trace[n]);
    AbsorbedEverAfter(step, inv, message, applied, absorbed, init, trace, j, n);
  }

  lemma RepeatsInPrefix<S, E, M>(
      step: (S, E) -> S, message: E -> M, applied: (S, E) -> bool, init: S, trace: seq<E>, i: int, n: nat)
    requires i < n <= |trace| && Repeats(step, message, applied, init, trace, i)
    ensures Repeats(step, message, applied, init, trace[..n], i)
  {
    var j :| AppliedBefore(step, applied, init, trace, j, i) && message(trace[j]) == message(trace[i]);
    assert trace[..n][..j] == trace[..j];
    assert HappensAt(step, applied, init, trace[..n], j);
    assert AppliedBefore(step, applied, init, trace[..n], j, i);
  }

  /** Repetitions inserted anywhere in any trace leave the final state unchanged. */
  lemma {:induction false} RepeatsDoNothing<S(!new), E(!new), M(!new)>(
      step: (S, E) -> S, inv: S -> bool, message: E -> M, applied: (S, E) -> bool, absorbed: (S, M) -> bool,
      init: S, trace: seq<E>, keep: seq<bool>)
    requires Absorbing(step, inv, message, applied, absorbed) && inv(init) && |trace| == |keep|
    requires forall i :: 0 <= i < |trace| && !keep[i] ==> Repeats(step, message, applied, init, trace, i)
    ensures RunOf(step, init, Kept(trace, keep)) == RunOf(step, init, trace)
  {
    if trace != [] {
      var n := |trace| - 1;
      forall i | 0 <= i < n && !keep[..n][i] ensures Repeats(step, message, applied, init, trace[..n], i) {
        RepeatsInPrefix(step, message, applied, init, trace, i, n);
      }
      RepeatsDoNothing(step, inv, message, applied, absorbed, init, trace[..n], keep[..n]);
      if keep[n] {
        RunOneMore(step, init, Kept(trace[..n], keep[..n]), trace[n]);
      } else {
        RepeatIsNoOp(step, inv, message, applied, absorbed, init, trace);
      }
    }
  }
}
