/** Which live sessions can still be refreshed: those in whose family no reuse was detected. */
module SessionLiveness {
  import opened Prelude
  import opened RefreshTokens
  import opened RefreshTokenTheorems
  import opened Transitions

  /** Tokens share a session exactly when they share a family. */
  ghost predicate Paired(tokens: seq<Token>) {
    forall i, j :: 0 <= i < |tokens| && 0 <= j < |tokens| ==>
      (tokens[i].familyId == tokens[j].familyId <==> tokens[i].sessionTokenId == tokens[j].sessionTokenId)
  }

  ghost predicate TokenOf(s: Store, k: int, i: int) {
    0 <= k < |s.sessions| && 0 <= i < |s.tokens| && s.tokens[i].sessionTokenId == s.sessions[k].tokenId
  }

  ghost predicate HasToken(s: Store, k: int) {
    exists i :: TokenOf(s, k, i)
  }

  /** Every session has a token. */
  ghost predicate Equipped(s: Store) {
    forall k :: 0 <= k < |s.sessions| ==> HasToken(s, k)
  }

  /** A family in which a reuse was detected is dead. */
  ghost predicate ReusedAreDead(s: Store) {
    forall f :: ReuseDetected(f) in s.events ==> DeadFamily(s, f)
  }

  ghost predicate SessionGone(s: Store, tokenId: string) {
    exists k: nat :: SessionRevokedAt(s, k, tokenId)
  }

  /** If the family of token `i` is dead, a reuse was detected in it or its session is revoked. */
  ghost predicate ExplainedAt(s: Store, i: int) {
    0 <= i < |s.tokens| && DeadFamily(s, s.tokens[i].familyId) ==>
      ReuseDetected(s.tokens[i].familyId) in s.events || SessionGone(s, s.tokens[i].sessionTokenId)
  }

  ghost predicate Explained(s: Store) {
    forall i :: ExplainedAt(s, i)
  }

  ghost predicate Lively(s: Store) {
    Valid(s) && Paired(s.tokens) && Equipped(s) && ReusedAreDead(s) && Explained(s)
  }

  // ----- what every step keeps -----

  lemma StepKeepsPaired(s: Store, step: Step)
    requires Paired(s.tokens) && Fresh(s, step)
    ensures Paired(Take(s, step).tokens)
  {
    var after := Take(s, step).tokens;
    if |after| > |s.tokens| && step.RefreshStep? {
      var k := FindToken(s.tokens, step.presented.value).value;
      assert after[|s.tokens|].familyId == s.tokens[k].familyId;
      assert after[|s.tokens|].sessionTokenId == s.tokens[k].sessionTokenId;
    }
    StepKeepsRows(s, step);
  }

  lemma StepKeepsEquipped(s: Store, step: Step)
    requires Equipped(s)
    ensures Equipped(Take(s, step))
  {
    var after := Take(s, step);
    StepKeepsRows(s, step);
    forall k | 0 <= k < |after.sessions| ensures HasToken(after, k) {
      if k < |s.sessions| {
        assert HasToken(s, k);
        var i :| TokenOf(s, k, i);
        assert TokenOf(after, k, i);
      } else {
        assert TokenOf(after, k, |s.tokens|);
      }
    }
  }

  lemma StepKeepsReused(s: Store, step: Step)
    requires Valid(s) && ReusedAreDead(s) && Fresh(s, step)
    ensures ReusedAreDead(Take(s, step))
  {
    var after := Take(s, step);
    forall f | ReuseDetected(f) in after.events ensures DeadFamily(after, f) {
      if ReuseDetected(f) in s.events {
        StepKeepsDead(s, step, f);
      } else {
        NewReuse(s, step, f);
      }
    }
  }

  lemma NewReuse(s: Store, step: Step, f: string)
    requires ReuseDetected(f) !in s.events && ReuseDetected(f) in Take(s, step).events
    ensures DeadFamily(Take(s, step), f)
  {
    var k := FindToken(s.tokens, step.presented.value).value;
    var after := Take(s, step);
    assert after.tokens == RevokeFamily(s.tokens, f, step.now);
    assert after.tokens[k] in after.tokens && after.tokens[k].familyId == f;
  }

  /** The family has the same tokens in both stores. */
  ghost predicate FamilySame(s: Store, after: Store, f: string) {
    |s.tokens| <= |after.tokens| && forall i :: 0 <= i < |after.tokens| && after.tokens[i].familyId == f ==>
      i < |s.tokens| && s.tokens[i] == after.tokens[i]
  }

  /** What was recorded before is recorded after. */
  ghost predicate Remembers(s: Store, after: Store) {
    && (forall e :: e in s.events ==> e in after.events)
    && |s.tokens| <= |after.tokens|
    && (forall i :: 0 <= i < |s.tokens| ==> after.tokens[i].familyId == s.tokens[i].familyId)
    && (forall tid :: SessionGone(s, tid) ==> SessionGone(after, tid))
  }

  lemma StepRemembers(s: Store, step: Step)
    ensures Remembers(s, Take(s, step))
  {
    StepKeepsRows(s, step);
    forall tid | SessionGone(s, tid) ensures SessionGone(Take(s, step), tid) {
      var k: nat :| SessionRevokedAt(s, k, tid);
      StepKeepsSessionDead(s, step, k);
      assert SessionRevokedAt(Take(s, step), k, tid);
    }
  }

  lemma SameFamilyExplained(s: Store, after: Store, i: nat)
    requires Explained(s) && Remembers(s, after) && i < |after.tokens| && FamilySame(s, after, after.tokens[i].familyId)
    ensures ExplainedAt(after, i)
  {
    var f := after.tokens[i].familyId;
    assert ExplainedAt(s, i);
    if DeadFamily(after, f) {
      assert s.tokens[i] in s.tokens;
      forall j | 0 <= j < |s.tokens| && s.tokens[j].familyId == f ensures s.tokens[j].revokedAt.Some? {
        assert after.tokens[j].familyId == f;
      }
    }
  }

  lemma LoginExplains(s: Store, step: Step, i: nat)
    requires Lively(s) && step.LoginStep? && Fresh(s, step) && i < |Take(s, step).tokens|
    ensures ExplainedAt(Take(s, step), i)
  {
    var after := Take(s, step);
    StepRemembers(s, step);
    if i < |s.tokens| {
      assert s.tokens[i] in s.tokens;
      SameFamilyExplained(s, after, i);
    }
  }

  lemma ReuseExplains(s: Store, f: string, now: int, i: nat)
    requires Explained(s) && i < |s.tokens|
    ensures ExplainedAt(s.(tokens := RevokeFamily(s.tokens, f, now), events := s.events + [ReuseDetected(f)]), i)
  {
    var after := s.(tokens := RevokeFamily(s.tokens, f, now), events := s.events + [ReuseDetected(f)]);
    if s.tokens[i].familyId != f {
      forall tid | SessionGone(s, tid) ensures SessionGone(after, tid) {
        var k: nat :| SessionRevokedAt(s, k, tid);
        assert SessionRevokedAt(after, k, tid);
      }
      SameFamilyExplained(s, after, i);
    }
  }

  lemma RotateExplains(s: Store, k: nat, hash: string, expiresAt: int, now: int, i: nat)
    requires Explained(s) && k < |s.tokens| && i <= |s.tokens|
    ensures ExplainedAt(Rotate(s, k, hash, expiresAt, now), i)
  {
    var after := Rotate(s, k, hash, expiresAt, now);
    if after.tokens[i].familyId != s.tokens[k].familyId {
      forall tid | SessionGone(s, tid) ensures SessionGone(after, tid) {
        var m: nat :| SessionRevokedAt(s, m, tid);
        assert SessionRevokedAt(after, m, tid);
      }
      SameFamilyExplained(s, after, i);
    } else {
      assert after.tokens[|s.tokens|].revokedAt.None? && after.tokens[|s.tokens|].familyId == s.tokens[k].familyId;
    }
  }

  lemma RefreshExplains(s: Store, step: Step, i: nat)
    requires Explained(s) && step.RefreshStep? && i < |Take(s, step).tokens|
    ensures ExplainedAt(Take(s, step), i)
  {
    assert ExplainedAt(s, i);
    var found := if step.presented.Some? then FindToken(s.tokens, step.presented.value) else None;
    if found.Some? {
      var k := found.value;
      if s.tokens[k].revokedAt.Some? {
        ReuseExplains(s, s.tokens[k].familyId, step.now, i);
      } else if Take(s, step) != s {
        RotateExplains(s, k, step.newHash, step.newExpiry, step.now, i);
      }
    }
  }

  /** A session killed with its tokens. */
  lemma KillExplains(s: Store, k: nat, now: int, i: nat)
    requires Lively(s) && k < |s.sessions| && i < |s.tokens|
    requires Remembers(s, KillSession(s, k, now))
    ensures ExplainedAt(KillSession(s, k, now), i)
  {
    var after := KillSession(s, k, now);
    if s.tokens[i].sessionTokenId == s.sessions[k].tokenId {
      assert SessionRevokedAt(after, k, s.sessions[k].tokenId);
    } else {
      SameFamilyExplained(s, after, i);
    }
  }

  lemma KillRemembers(s: Store, k: nat, now: int)
    requires k < |s.sessions|
    ensures Remembers(s, KillSession(s, k, now))
  {
    var after := KillSession(s, k, now);
    forall tid | SessionGone(s, tid) ensures SessionGone(after, tid) {
      var m: nat :| SessionRevokedAt(s, m, tid);
      assert SessionRevokedAt(after, m, tid);
    }
  }

  lemma EventKeepsExplained(s: Store, e: AuthEvent, i: nat)
    requires ExplainedAt(s, i) && i < |s.tokens|
    ensures ExplainedAt(s.(events := s.events + [e]), i)
  {
    var after := s.(events := s.events + [e]);
    if DeadFamily(after, s.tokens[i].familyId) {
      assert DeadFamily(s, s.tokens[i].familyId);
      if k: nat :| SessionRevokedAt(s, k, s.tokens[i].sessionTokenId) {
        assert SessionRevokedAt(after, k, s.tokens[i].sessionTokenId);
      }
    }
  }

  lemma StepKeepsExplained(s: Store, step: Step)
    requires Lively(s) && Fresh(s, step)
    ensures Explained(Take(s, step))
  {
    var after := Take(s, step);
    forall i: nat | i < |after.tokens| ensures ExplainedAt(after, i) {
      match step
      case LoginStep(_, _, _, _, _, _) => LoginExplains(s, step, i);
      case RefreshStep(_, _, _, _, _) => RefreshExplains(s, step, i);
      case LogoutStep(jti, now) =>
        assert ExplainedAt(s, i);
        if after != s {
          var k := FindSession(s.sessions, jti.value).value;
          KillRemembers(s, k, now);
          KillExplains(s, k, now, i);
          EventKeepsExplained(KillSession(s, k, now), SessionRevoked(jti.value), i);
        }
      case RevokeStep(u, sid, now) =>
        assert ExplainedAt(s, i);
        if after != s {
          var k := FindSessionById(s.sessions, sid, u).value;
          KillRemembers(s, k, now);
          KillExplains(s, k, now, i);
        }
    }
  }

  lemma StepKeepsLively(s: Store, step: Step)
    requires Lively(s) && Fresh(s, step)
    ensures Lively(Take(s, step))
  {
    StepKeepsValid(s, step);
    StepKeepsPaired(s, step);
    StepKeepsEquipped(s, step);
    StepKeepsReused(s, step);
    StepKeepsExplained(s, step);
  }

  lemma EveryRunIsLively(trace: seq<Step>, n: nat)
    requires FreshRun(trace) && n <= |trace|
    ensures Lively(Run(trace[..n]))
  {
    forall s, step | Lively(s) && Fresh(s, step) ensures Lively(Take(s, step)) { StepKeepsLively(s, step); }
    EmptyIsValid();
    assert Lively(EMPTY);
    KeptFrom(Take, Fresh, Lively, EMPTY, trace, 0, n);
  }

  // ----- the law -----

  ghost predicate LiveTokenOf(s: Store, tokenId: string, i: int) {
    0 <= i < |s.tokens| && s.tokens[i].sessionTokenId == tokenId && s.tokens[i].revokedAt.None?
  }

  /** The tokens of session `k` are the tokens of family `f`. */
  ghost predicate FamilyOf(s: Store, k: nat, f: string) {
    && k < |s.sessions| && HasFamily(s.tokens, f)
    && forall i :: 0 <= i < |s.tokens| ==>
         (s.tokens[i].familyId == f <==> s.tokens[i].sessionTokenId == s.sessions[k].tokenId)
  }

  lemma SessionHasFamily(s: Store, k: nat) returns (f: string)
    requires Lively(s) && k < |s.sessions|
    ensures FamilyOf(s, k, f)
  {
    assert HasToken(s, k);
    var i :| TokenOf(s, k, i);
    f := s.tokens[i].familyId;
    assert s.tokens[i] in s.tokens;
  }

  lemma OnlyItself(s: Store, k: nat)
    requires Valid(s) && k < |s.sessions| && s.sessions[k].revokedAt.None?
    ensures !SessionGone(s, s.sessions[k].tokenId)
  {
  }

  lemma RefreshableExactly(s: Store, k: nat, f: string)
    requires Lively(s) && FamilyOf(s, k, f) && s.sessions[k].revokedAt.None?
    ensures (exists i :: LiveTokenOf(s, s.sessions[k].tokenId, i)) <==> ReuseDetected(f) !in s.events
  {
    if i :| LiveTokenOf(s, s.sessions[k].tokenId, i) {
      assert !DeadFamily(s, f);
    } else {
      var t :| t in s.tokens && t.familyId == f;
      var i :| 0 <= i < |s.tokens| && s.tokens[i] == t;
      forall j | 0 <= j < |s.tokens| && s.tokens[j].familyId == f ensures s.tokens[j].revokedAt.Some? {
        assert !LiveTokenOf(s, s.sessions[k].tokenId, j);
      }
      assert DeadFamily(s, f) && ExplainedAt(s, i);
      OnlyItself(s, k);
    }
  }

  /** At every point of every run, the tokens of a session are those of one family, and a session
      that is not revoked has an unrevoked token exactly when no reuse was detected in that family:
      detection ends the family and leaves the session row live. */
  lemma LiveSessionExactly(trace: seq<Step>, n: nat, k: nat) returns (f: string)
    requires FreshRun(trace) && n <= |trace|
    requires k < |Run(trace[..n]).sessions| && Run(trace[..n]).sessions[k].revokedAt.None?
    ensures var s := Run(trace[..n]);
            && FamilyOf(s, k, f)
            && ((exists i :: LiveTokenOf(s, s.sessions[k].tokenId, i)) <==> ReuseDetected(f) !in s.events)
  {
    EveryRunIsLively(trace, n);
    f := SessionHasFamily(Run(trace[..n]), k);
    RefreshableExactly(Run(trace[..n]), k, f);
  }
}
