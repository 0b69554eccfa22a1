/** When a refresh succeeds and what each request of the session service changes: over every run a
    secret can be redeemed exactly while it is neither expired, nor redeemed, nor in a family with a
    detected reuse, nor of a revoked session. */
module RedemptionTheorems {
  import opened Prelude
  import opened RefreshTokens
  import opened RefreshTokenTheorems
  import opened SessionLiveness
  import opened Transitions

  // ----- one request -----

  /** Row `i` holds the secret and can be redeemed by the step. */
  ghost predicate CanRedeem(s: Store, step: Step, h: string, i: int) {
    && step.RefreshStep? && step.owner == Allowed
    && HoldsAt(s.tokens, i, h) && s.tokens[i].revokedAt.None? && step.now < s.tokens[i].expiresAt
  }

  lemma RedeemsExactly(s: Store, step: Step, h: string)
    requires UniqueHashes(s.tokens) && step.RefreshStep? && step.presented == Some(h)
    ensures Redeems(s, step, h) <==> exists i :: CanRedeem(s, step, h, i)
  {
    if i :| CanRedeem(s, step, h, i) { LookupIsUnique(s.tokens, h, i); }
    if Redeems(s, step, h) { assert CanRedeem(s, step, h, FindToken(s.tokens, h).value); }
  }

  /** The chosen rows that were not revoked are revoked now, and nothing else changes. */
  ghost predicate Revokes(before: seq<Token>, after: seq<Token>, chosen: Token -> bool, now: int) {
    |after| == |before| && forall i :: 0 <= i < |before| ==>
      after[i] ==
        if chosen(before[i]) && before[i].revokedAt.None? then before[i].(revokedAt := Some(now)) else before[i]
  }

  /** A refresh that does not succeed changes nothing, unless it presents a revoked token: then it
      revokes the family of that token. */
  lemma RefusalChanges(s: Store, step: Step, h: string, i: int)
    requires UniqueHashes(s.tokens) && step.RefreshStep? && !Redeems(s, step, h) && step.presented == Some(h)
    ensures (forall j :: !HoldsAt(s.tokens, j, h)) ==> Take(s, step) == s && Result(s, step) == Unrecognized
    ensures HoldsAt(s.tokens, i, h) && s.tokens[i].revokedAt.None? ==> Take(s, step) == s
    ensures HoldsAt(s.tokens, i, h) && s.tokens[i].revokedAt.None? ==>
      && (Result(s, step) == Expired <==> s.tokens[i].expiresAt <= step.now)
      && (Result(s, step) == OwnerGone <==> step.now < s.tokens[i].expiresAt && step.owner == Gone)
      && (Result(s, step) == LoginDenied <==> step.now < s.tokens[i].expiresAt && step.owner == Denied)
    ensures HoldsAt(s.tokens, i, h) && s.tokens[i].revokedAt.Some? ==>
      var after, f := Take(s, step), s.tokens[i].familyId;
      && Revokes(s.tokens, after.tokens, (t: Token) => t.familyId == f, step.now)
      && after.sessions == s.sessions && after.events == s.events + [ReuseDetected(f)] && Result(s, step) == Reused
  {
    if HoldsAt(s.tokens, i, h) { LookupIsUnique(s.tokens, h, i); }
    var found := FindToken(s.tokens, h);
    if found.Some? { assert HoldsAt(s.tokens, found.value, h); }
  }

  /** The secret can be redeemed by its owner until it expires, and not after. */
  ghost predicate RedeemableUntil(s: Store, h: string, expiresAt: int) {
    forall next: Step :: next.RefreshStep? && next.presented == Some(h) ==>
      (Redeems(s, next, h) <==> next.owner == Allowed && next.now < expiresAt)
  }

  lemma LiveRowRedeems(s: Store, i: nat, h: string)
    requires UniqueHashes(s.tokens) && HoldsAt(s.tokens, i, h) && s.tokens[i].revokedAt.None?
    ensures RedeemableUntil(s, h, s.tokens[i].expiresAt)
  {
    forall next: Step | next.RefreshStep? && next.presented == Some(h)
      ensures Redeems(s, next, h) <==> next.owner == Allowed && next.now < s.tokens[i].expiresAt
    {
      RedeemsExactly(s, next, h);
      assert CanRedeem(s, next, h, i) <==> next.owner == Allowed && next.now < s.tokens[i].expiresAt;
    }
  }

  /** Redeeming row `i` retires it for one new row of the same user, family and session, which has the
      new secret and can be redeemed until the new expiry. */
  lemma SuccessorRedeems(s: Store, step: Step, h: string, i: nat)
    requires UniqueHashes(s.tokens) && Fresh(s, step) && Redeems(s, step, h) && HoldsAt(s.tokens, i, h)
    ensures var after, t, n := Take(s, step), s.tokens[i], |s.tokens|;
            && |after.tokens| == n + 1
            && after.tokens[i] == t.(revokedAt := Some(step.now), replacedBy := Some(n))
            && (forall j :: 0 <= j < n && j != i ==> after.tokens[j] == s.tokens[j])
            && after.tokens[n] ==
                 Token(t.userId, step.newHash, t.familyId, t.sessionTokenId, step.newExpiry, None, None)
            && after.sessions == s.sessions && after.events == s.events + [SessionRefreshed(t.familyId)]
            && RedeemableUntil(after, step.newHash, step.newExpiry)
  {
    LookupIsUnique(s.tokens, h, i);
    LiveRowRedeems(Take(s, step), |s.tokens|, step.newHash);
  }

  /** A login opens a live session whose first token can be redeemed until it expires. */
  lemma LoginRedeems(s: Store, step: Step)
    requires UniqueHashes(s.tokens) && step.LoginStep? && Fresh(s, step)
    ensures var after, n := Take(s, step), |s.tokens|;
            && |after.tokens| == n + 1 && after.tokens[..n] == s.tokens
            && after.tokens[n].userId == step.userId && after.tokens[n].familyId == step.familyId
            && after.tokens[n].sessionTokenId == step.tokenId && after.tokens[n].replacedBy.None?
            && after.sessions == s.sessions + [Session(step.sessionId, step.userId, step.tokenId, None)]
            && after.events == s.events + [SessionCreated(step.tokenId)]
            && RedeemableUntil(after, step.hash, step.expiresAt)
  {
    LiveRowRedeems(Take(s, step), |s.tokens|, step.hash);
  }

  /** Session `k` is live and is revoked with its tokens, and nothing else changes. */
  ghost predicate Ends(s: Store, after: Store, k: int, now: int) {
    && 0 <= k < |s.sessions| == |after.sessions| && s.sessions[k].revokedAt.None?
    && after.sessions[k] == s.sessions[k].(revokedAt := Some(now))
    && (forall j :: 0 <= j < |s.sessions| && j != k ==> after.sessions[j] == s.sessions[j])
    && Revokes(s.tokens, after.tokens, (t: Token) => t.sessionTokenId == s.sessions[k].tokenId, now)
  }

  ghost predicate LiveSession(s: Store, tokenId: string, k: int) {
    0 <= k < |s.sessions| && s.sessions[k].tokenId == tokenId && s.sessions[k].revokedAt.None?
  }

  /** A logout ends the live session of its access token, if there is one, and otherwise changes
      nothing. */
  lemma LogoutEnds(s: Store, tokenId: string, now: int, k: int)
    requires UniqueSessions(s.sessions)
    ensures var after := Take(s, LogoutStep(Some(tokenId), now));
            && (LiveSession(s, tokenId, k) ==>
                  Ends(s, after, k, now) && after.events == s.events + [SessionRevoked(tokenId)])
            && ((forall j :: !LiveSession(s, tokenId, j)) ==> after == s)
    ensures Take(s, LogoutStep(None, now)) == s
  {
    var found := FindSession(s.sessions, tokenId);
    if LiveSession(s, tokenId, k) { assert found.Some?; }
    if found.Some? && s.sessions[found.value].revokedAt.None? { assert LiveSession(s, tokenId, found.value); }
  }

  ghost predicate OwnSession(s: Store, userId: string, sessionId: string, k: int) {
    0 <= k < |s.sessions| && s.sessions[k].sessionId == sessionId && s.sessions[k].userId == userId
  }

  /** Revoking by id answers yes exactly if it ends a live session of that id and that user. */
  lemma RevocationEnds(s: Store, userId: string, sessionId: string, now: int)
    requires forall j, k :: OwnSession(s, userId, sessionId, j) && OwnSession(s, userId, sessionId, k) ==> j == k
    ensures var (after, revoked) := RevokeById(s, userId, sessionId, now);
            && after == Take(s, RevokeStep(userId, sessionId, now)) && after.events == s.events
            && (revoked <==> exists k :: OwnSession(s, userId, sessionId, k) && s.sessions[k].revokedAt.None?)
            && (revoked ==> exists k :: OwnSession(s, userId, sessionId, k) && Ends(s, after, k, now))
            && (!revoked ==> after == s)
  {
    var found := FindSessionById(s.sessions, sessionId, userId);
    if found.Some? { assert OwnSession(s, userId, sessionId, found.value); }
  }

  // ----- why a token is revoked -----

  /** Token `i` was replaced, a reuse was detected in its family, or its session is revoked. */
  ghost predicate Spent(s: Store, i: nat)
    requires i < |s.tokens|
  {
    s.tokens[i].replacedBy.Some? || ReuseDetected(s.tokens[i].familyId) in s.events
    || SessionGone(s, s.tokens[i].sessionTokenId)
  }

  ghost predicate RevokedForAReason(s: Store) {
    forall i: nat :: i < |s.tokens| && s.tokens[i].revokedAt.Some? ==> Spent(s, i)
  }

  lemma StepKeepsSpent(s: Store, step: Step, i: nat)
    requires i < |s.tokens| && Spent(s, i)
    ensures i < |Take(s, step).tokens| && Spent(Take(s, step), i)
  {
    StepRemembers(s, step);
    StepKeepsRows(s, step);
  }

  lemma StepKeepsReasons(s: Store, step: Step)
    requires RevokedForAReason(s)
    ensures RevokedForAReason(Take(s, step))
  {
    var after := Take(s, step);
    StepKeepsRows(s, step);
    forall i: nat | i < |after.tokens| && after.tokens[i].revokedAt.Some? ensures Spent(after, i) {
      if i < |s.tokens| && s.tokens[i].revokedAt.Some? {
        StepKeepsSpent(s, step, i);
      } else {
        NewlyRevoked(s, step, i);
      }
    }
  }

  lemma NewlyRevoked(s: Store, step: Step, i: nat)
    requires i < |Take(s, step).tokens| && Take(s, step).tokens[i].revokedAt.Some?
    requires i < |s.tokens| ==> s.tokens[i].revokedAt.None?
    ensures Spent(Take(s, step), i)
  {
    var after := Take(s, step);
    match step
    case LoginStep(_, _, _, _, _, _) =>
    case RefreshStep(_, _, _, _, _) =>
    case LogoutStep(jti, now) =>
      var k := FindSession(s.sessions, jti.value).value;
      assert SessionRevokedAt(after, k, s.sessions[k].tokenId);
    case RevokeStep(u, sid, now) =>
      var k := FindSessionById(s.sessions, sid, u).value;
      assert SessionRevokedAt(after, k, s.sessions[k].tokenId);
  }

  lemma ReplacedIsRevoked(tokens: seq<Token>, i: nat)
    requires Chained(tokens) && i < |tokens| && tokens[i].replacedBy.Some?
    ensures tokens[i].revokedAt.Some?
  {
    var j := tokens[i].replacedBy.value;
    assert NextInFamily(tokens, i, j);
    assert LinkedTo(tokens, i, j);
  }

  lemma SpentIsRevoked(s: Store, i: nat)
    requires Lively(s) && i < |s.tokens| && Spent(s, i)
    ensures s.tokens[i].revokedAt.Some?
  {
    if s.tokens[i].replacedBy.Some? {
      ReplacedIsRevoked(s.tokens, i);
    } else if ReuseDetected(s.tokens[i].familyId) in s.events {
      assert DeadFamily(s, s.tokens[i].familyId);
    } else {
      var k: nat :| SessionRevokedAt(s, k, s.tokens[i].sessionTokenId);
    }
  }

  lemma EveryRunHasReasons(trace: seq<Step>, n: nat)
    requires n <= |trace|
    ensures RevokedForAReason(Run(trace[..n]))
  {
    forall s, step | RevokedForAReason(s) ensures RevokedForAReason(Take(s, step)) { StepKeepsReasons(s, step); }
    AlwaysKept(Take, RevokedForAReason, EMPTY, trace[..n]);
  }

  // ----- redemptions of a run -----

  ghost predicate RedeemedAt(trace: seq<Step>, j: int, h: string) {
    0 <= j < |trace| && Redeems(Run(trace[..j]), trace[j], h)
  }

  /** Some step of the run redeemed the secret. */
  ghost predicate RedeemedIn(trace: seq<Step>, h: string) {
    exists j :: RedeemedAt(trace, j, h)
  }

  lemma OneStepLater(trace: seq<Step>, h: string)
    requires trace != []
    ensures var n := |trace| - 1;
            RedeemedIn(trace, h) <==> RedeemedIn(trace[..n], h) || Redeems(Run(trace[..n]), trace[n], h)
  {
    var n := |trace| - 1;
    forall j | 0 <= j < n ensures RedeemedAt(trace, j, h) <==> RedeemedAt(trace[..n], j, h) {
      assert trace[..n][..j] == trace[..j];
    }
    if Redeems(Run(trace[..n]), trace[n], h) { assert RedeemedAt(trace, n, h); }
    if j :| RedeemedAt(trace, j, h) { assert j == n || RedeemedAt(trace[..n], j, h); }
    if j :| RedeemedAt(trace[..n], j, h) { assert RedeemedAt(trace, j, h); }
  }

  /** One step replaces a token that it had not replaced before exactly if it redeems its secret. */
  lemma StepReplaces(s: Store, step: Step, i: nat)
    requires UniqueHashes(s.tokens) && Fresh(s, step) && i < |Take(s, step).tokens|
    ensures var after := Take(s, step);
            after.tokens[i].replacedBy.Some? <==>
              i < |s.tokens| && (s.tokens[i].replacedBy.Some? || Redeems(s, step, s.tokens[i].tokenHash))
  {
    if i < |s.tokens| { LookupIsUnique(s.tokens, s.tokens[i].tokenHash, i); }
  }

  lemma FreshSecretUnused(trace: seq<Step>, h: string)
    requires FreshRun(trace) && forall i :: !HoldsAt(Run(trace).tokens, i, h)
    ensures !RedeemedIn(trace, h)
  {
    if j :| RedeemedAt(trace, j, h) { HeldForGood(trace, j, FindToken(Run(trace[..j]).tokens, h).value, h); }
  }

  lemma HeldForGood(trace: seq<Step>, j: nat, r: int, h: string)
    requires j <= |trace| && HoldsAt(Run(trace[..j]).tokens, r, h)
    ensures HoldsAt(Run(trace).tokens, r, h)
  {
    var inv := (s: Store) => HoldsAt(s.tokens, r, h);
    forall s, step | inv(s) ensures inv(Take(s, step)) { StepKeepsRows(s, step); }
    assert trace == trace[..j] + trace[j..];
    RunConcat(Take, EMPTY, trace[..j], trace[j..]);
    AlwaysKept(Take, inv, Run(trace[..j]), trace[j..]);
  }

  lemma {:induction false} ReplacedExactly(trace: seq<Step>, i: nat)
    requires FreshRun(trace) && i < |Run(trace).tokens|
    ensures Run(trace).tokens[i].replacedBy.Some? <==> RedeemedIn(trace, Run(trace).tokens[i].tokenHash)
  {
    if trace != [] {
      var n := |trace| - 1;
      var front, s, step := trace[..n], Run(trace[..n]), trace[n];
      FreshPrefix(trace, n);
      EveryRunIsValid(trace, n);
      StepReplaces(s, step, i);
      StepKeepsRows(s, step);
      var h := Run(trace).tokens[i].tokenHash;
      OneStepLater(trace, h);
      if i < |s.tokens| {
        ReplacedExactly(front, i);
      } else {
        NewSecret(s, step, i);
        FreshSecretUnused(front, h);
        UnknownIsRefused(s, step, h);
      }
    }
  }

  lemma UnknownIsRefused(s: Store, step: Step, h: string)
    requires forall i :: !HoldsAt(s.tokens, i, h)
    ensures !Redeems(s, step, h)
  {
    var held := HoldsAt(s.tokens, FindToken(s.tokens, h).GetOr(0), h);
  }

  lemma NewSecret(s: Store, step: Step, i: nat)
    requires Fresh(s, step) && |s.tokens| <= i < |Take(s, step).tokens|
    ensures forall j :: !HoldsAt(s.tokens, j, Take(s, step).tokens[i].tokenHash)
  {
  }

  lemma FreshPrefix(trace: seq<Step>, n: nat)
    requires FreshRun(trace) && n <= |trace|
    ensures FreshRun(trace[..n]) && (n < |trace| ==> Fresh(Run(trace[..n]), trace[n]))
  {
    assert n < |trace| ==> HappensAt(Take, Fresh, EMPTY, trace, n);
    forall i | 0 <= i < n ensures HappensAt(Take, Fresh, EMPTY, trace[..n], i) {
      assert HappensAt(Take, Fresh, EMPTY, trace, i);
      HappensInPrefix(Take, Fresh, EMPTY, trace, n, i);
    }
  }

  /** Row `i` holds a secret that nothing in the history of the run has spent. */
  ghost predicate Unspent(trace: seq<Step>, i: int, h: string) {
    var s := Run(trace);
    && HoldsAt(s.tokens, i, h) && !RedeemedIn(trace, h)
    && ReuseDetected(s.tokens[i].familyId) !in s.events && !SessionGone(s, s.tokens[i].sessionTokenId)
  }

  /** At every point of every run a secret is redeemed exactly if it was issued, has not expired, has
      not been redeemed before, no reuse was detected in its family, its session is not revoked, and
      its owner may log in. */
  lemma RedeemableExactly(trace: seq<Step>, n: nat, step: Step, h: string)
    requires FreshRun(trace) && n <= |trace| && step.RefreshStep? && step.presented == Some(h)
    ensures Redeems(Run(trace[..n]), step, h) <==>
      step.owner == Allowed &&
      exists i :: Unspent(trace[..n], i, h) && step.now < Run(trace[..n]).tokens[i].expiresAt
  {
    var s := Run(trace[..n]);
    EveryRunIsLively(trace, n);
    EveryRunHasReasons(trace, n);
    FreshPrefix(trace, n);
    RedeemsExactly(s, step, h);
    forall i: nat | HoldsAt(s.tokens, i, h)
      ensures s.tokens[i].revokedAt.None? <==> Unspent(trace[..n], i, h)
    {
      ReplacedExactly(trace[..n], i);
      if Spent(s, i) { SpentIsRevoked(s, i); }
    }
    if i :| CanRedeem(s, step, h, i) { assert Unspent(trace[..n], i, h); }
    if i :| Unspent(trace[..n], i, h) && step.owner == Allowed && step.now < s.tokens[i].expiresAt {
      assert CanRedeem(s, step, h, i);
    }
  }
}
