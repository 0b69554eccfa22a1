/** Laws of token rotation over every run of logins, refreshes, logouts and revocations. */
module RefreshTokenTheorems {
  import opened Prelude
  import opened RefreshTokens
  import opened Transitions

  // ----- runs -----

  datatype Step =
    | LoginStep(userId: string, sessionId: string, tokenId: string, familyId: string, hash: string, expiresAt: int)
    | RefreshStep(presented: Option<string>, owner: Owner, newHash: string, newExpiry: int, now: int)
    | LogoutStep(jti: Option<string>, now: int)
    | RevokeStep(userId: string, sessionId: string, now: int)

  ghost function Take(s: Store, step: Step): Store {
    match step
    case LoginStep(u, sid, tid, f, h, e) => Login(s, u, sid, tid, f, h, e)
    case RefreshStep(p, o, h, e, now) => Refresh(s, p, o, h, e, now).0
    case LogoutStep(jti, now) => Logout(s, jti, now)
    case RevokeStep(u, sid, now) => RevokeById(s, u, sid, now).0
  }

  /** Generated identifiers and secrets have not been used before. */
  ghost predicate Fresh(s: Store, step: Step) {
    match step
    case LoginStep(_, _, tid, f, h, _) =>
      && (forall t :: t in s.tokens ==> t.tokenHash != h && t.familyId != f && t.sessionTokenId != tid)
      && (forall e :: e in s.sessions ==> e.tokenId != tid)
    case RefreshStep(_, _, h, _, _) => forall t :: t in s.tokens ==> t.tokenHash != h
    case _ => true
  }

  ghost function Run(trace: seq<Step>): Store {
    RunOf(Take, EMPTY, trace)
  }

  ghost predicate FreshRun(trace: seq<Step>) {
    Possible(Take, Fresh, EMPTY, trace)
  }

  // ----- the invariant -----

  /** Row `j` is the first row of the family after row `i`. */
  ghost predicate NextInFamily(tokens: seq<Token>, i: int, j: int) {
    && 0 <= i < j < |tokens| && tokens[i].familyId == tokens[j].familyId
    && forall k :: i < k < j ==> tokens[k].familyId != tokens[i].familyId
  }

  /** `replaced_by` points at exactly the next row of the family, which has the same user and
      session, and only rows without a next one can be unrevoked. */
  ghost predicate Chained(tokens: seq<Token>) {
    && (forall i, j :: NextInFamily(tokens, i, j) ==> LinkedTo(tokens, i, j))
    && (forall i :: 0 <= i < |tokens| && tokens[i].replacedBy.Some? ==>
         NextInFamily(tokens, i, tokens[i].replacedBy.value))
  }

  ghost predicate LinkedTo(tokens: seq<Token>, i: int, j: int) {
    && 0 <= i < |tokens| && 0 <= j < |tokens|
    && tokens[i].replacedBy == Some(j) && tokens[i].revokedAt.Some?
    && tokens[i].userId == tokens[j].userId && tokens[i].sessionTokenId == tokens[j].sessionTokenId
  }

  ghost predicate UniqueHashes(tokens: seq<Token>) {
    forall i, j :: 0 <= i < j < |tokens| ==> tokens[i].tokenHash != tokens[j].tokenHash
  }

  ghost predicate UniqueSessions(sessions: seq<Session>) {
    forall i, j :: 0 <= i < j < |sessions| ==> sessions[i].tokenId != sessions[j].tokenId
  }

  /** A revoked session has no unrevoked refresh token. */
  ghost predicate DeadSessionsHaveNoLiveToken(s: Store) {
    forall k, i :: 0 <= k < |s.sessions| && s.sessions[k].revokedAt.Some? && 0 <= i < |s.tokens| ==>
      s.tokens[i].sessionTokenId == s.sessions[k].tokenId ==> s.tokens[i].revokedAt.Some?
  }

  function FamilyRows(tokens: seq<Token>, f: string): seq<nat> {
    if tokens == [] then [] else
    var n := |tokens| - 1;
    var front := FamilyRows(tokens[..n], f);
    if tokens[n].familyId == f then front + [n] else front
  }

  function RefreshCount(events: seq<AuthEvent>, f: string): nat {
    if events == [] then 0 else
    RefreshCount(events[..|events| - 1], f) + if events[|events| - 1] == SessionRefreshed(f) then 1 else 0
  }

  /** A family has one token more than it has had successful refreshes. */
  ghost predicate CountsAgree(s: Store) {
    forall f :: |FamilyRows(s.tokens, f)| == RefreshCount(s.events, f) + if HasFamily(s.tokens, f) then 1 else 0
  }

  ghost predicate HasFamily(tokens: seq<Token>, f: string) {
    exists t :: t in tokens && t.familyId == f
  }

  ghost predicate Valid(s: Store) {
    && UniqueHashes(s.tokens) && UniqueSessions(s.sessions)
    && Chained(s.tokens)
    && DeadSessionsHaveNoLiveToken(s)
    && CountsAgree(s)
  }

  // ----- revoking keeps the invariant -----

  /** Rows changed only by being revoked. */
  ghost predicate OnlyRevoked(before: seq<Token>, after: seq<Token>) {
    |after| == |before| &&
    forall i :: 0 <= i < |before| ==>
      || after[i] == before[i]
      || (before[i].revokedAt.None? && after[i].revokedAt.Some? && after[i].(revokedAt := None) == before[i])
  }

  lemma {:induction false} FamilyRowsSame(before: seq<Token>, after: seq<Token>, f: string)
    requires |before| == |after| && forall i :: 0 <= i < |before| ==> before[i].familyId == after[i].familyId
    ensures FamilyRows(before, f) == FamilyRows(after, f)
  {
    if before != [] { FamilyRowsSame(before[..|before| - 1], after[..|after| - 1], f); }
  }

  lemma HasFamilySame(before: seq<Token>, after: seq<Token>, f: string)
    requires |before| == |after| && forall i :: 0 <= i < |before| ==> before[i].familyId == after[i].familyId
    ensures HasFamily(before, f) <==> HasFamily(after, f)
  {
    if t :| t in before && t.familyId == f {
      var i :| 0 <= i < |before| && before[i] == t;
      assert after[i] in after;
    }
    if t :| t in after && t.familyId == f {
      var i :| 0 <= i < |after| && after[i] == t;
      assert before[i] in before;
    }
  }

  lemma RevokingKeepsChain(before: seq<Token>, after: seq<Token>)
    requires Chained(before) && OnlyRevoked(before, after)
    ensures Chained(after)
  {
    forall i, j | NextInFamily(after, i, j) ensures LinkedTo(after, i, j) {
      assert NextInFamily(before, i, j);
    }
    forall i | 0 <= i < |after| && after[i].replacedBy.Some? ensures NextInFamily(after, i, after[i].replacedBy.value) {
      assert NextInFamily(before, i, before[i].replacedBy.value);
    }
  }

  lemma RevokingKeepsCounts(s: Store, after: seq<Token>, events: seq<AuthEvent>)
    requires CountsAgree(s) && OnlyRevoked(s.tokens, after)
    requires forall f :: RefreshCount(events, f) == RefreshCount(s.events, f)
    ensures CountsAgree(s.(tokens := after, events := events))
  {
    forall f ensures |FamilyRows(after, f)| == RefreshCount(events, f) + if HasFamily(after, f) then 1 else 0 {
      FamilyRowsSame(s.tokens, after, f);
      HasFamilySame(s.tokens, after, f);
    }
  }

  lemma OtherEventKeepsCount(events: seq<AuthEvent>, e: AuthEvent, f: string)
    ensures RefreshCount(events + [e], f) == RefreshCount(events, f) + if e == SessionRefreshed(f) then 1 else 0
  {
    assert (events + [e])[..|events|] == events;
  }

  lemma KillKeepsValid(s: Store, k: nat, now: int)
    requires Valid(s) && k < |s.sessions|
    ensures Valid(KillSession(s, k, now))
  {
    var after := RevokeForSession(s.tokens, s.sessions[k].tokenId, now);
    assert OnlyRevoked(s.tokens, after);
    RevokingKeepsChain(s.tokens, after);
    RevokingKeepsCounts(s, after, s.events);
  }

  lemma ReuseKeepsValid(s: Store, f: string, now: int)
    requires Valid(s)
    ensures Valid(s.(tokens := RevokeFamily(s.tokens, f, now), events := s.events + [ReuseDetected(f)]))
  {
    var after := RevokeFamily(s.tokens, f, now);
    assert OnlyRevoked(s.tokens, after);
    RevokingKeepsChain(s.tokens, after);
    forall g ensures RefreshCount(s.events + [ReuseDetected(f)], g) == RefreshCount(s.events, g) {
      OtherEventKeepsCount(s.events, ReuseDetected(f), g);
    }
    RevokingKeepsCounts(s, after, s.events + [ReuseDetected(f)]);
  }

  lemma EventKeepsValid(s: Store, e: AuthEvent)
    requires Valid(s) && !e.SessionRefreshed?
    ensures Valid(s.(events := s.events + [e]))
  {
    forall g ensures RefreshCount(s.events + [e], g) == RefreshCount(s.events, g) {
      OtherEventKeepsCount(s.events, e, g);
    }
    RevokingKeepsCounts(s, s.tokens, s.events + [e]);
  }

  // ----- issuing keeps the invariant -----

  /** A row with a later one in its family has a next one. */
  lemma {:induction false} NextExists(tokens: seq<Token>, i: nat, j: nat) returns (k: nat)
    requires i < j < |tokens| && tokens[j].familyId == tokens[i].familyId
    ensures NextInFamily(tokens, i, k)
  {
    k := i + 1;
    while tokens[k].familyId != tokens[i].familyId
      invariant i < k <= j && forall m :: i < m < k ==> tokens[m].familyId != tokens[i].familyId
      decreases j - k
    {
      k := k + 1;
    }
  }

  /** An unrevoked row is the last of its family. */
  lemma UnrevokedIsLast(tokens: seq<Token>, i: nat)
    requires Chained(tokens) && i < |tokens| && tokens[i].revokedAt.None?
    ensures forall j :: i < j < |tokens| ==> tokens[j].familyId != tokens[i].familyId
  {
    if j :| i < j < |tokens| && tokens[j].familyId == tokens[i].familyId {
      var k := NextExists(tokens, i, j);
    }
  }

  lemma RotateKeepsLinks(s: Store, i: nat, hash: string, expiresAt: int, now: int, a: int, b: int)
    requires Chained(s.tokens) && i < |s.tokens| && s.tokens[i].revokedAt.None?
    requires NextInFamily(Rotate(s, i, hash, expiresAt, now).tokens, a, b)
    ensures LinkedTo(Rotate(s, i, hash, expiresAt, now).tokens, a, b)
  {
    var tokens, after := s.tokens, Rotate(s, i, hash, expiresAt, now).tokens;
    assert forall k :: 0 <= k < |tokens| ==> after[k].familyId == tokens[k].familyId;
    if b < |tokens| {
      assert NextInFamily(tokens, a, b);
      assert LinkedTo(tokens, a, b);
    } else {
      UnrevokedIsLast(tokens, i);
    }
  }

  lemma RotateKeepsTargets(s: Store, i: nat, hash: string, expiresAt: int, now: int, a: int)
    requires Chained(s.tokens) && i < |s.tokens| && s.tokens[i].revokedAt.None?
    requires 0 <= a < |s.tokens| + 1 && Rotate(s, i, hash, expiresAt, now).tokens[a].replacedBy.Some?
    ensures var after := Rotate(s, i, hash, expiresAt, now).tokens;
            NextInFamily(after, a, after[a].replacedBy.value)
  {
    var tokens, after := s.tokens, Rotate(s, i, hash, expiresAt, now).tokens;
    assert forall k :: 0 <= k < |tokens| ==> after[k].familyId == tokens[k].familyId;
    if a == i {
      UnrevokedIsLast(tokens, i);
    } else {
      assert NextInFamily(tokens, a, tokens[a].replacedBy.value);
    }
  }

  lemma RotateKeepsChain(s: Store, i: nat, hash: string, expiresAt: int, now: int)
    requires Chained(s.tokens) && i < |s.tokens| && s.tokens[i].revokedAt.None?
    ensures Chained(Rotate(s, i, hash, expiresAt, now).tokens)
  {
    var after := Rotate(s, i, hash, expiresAt, now).tokens;
    forall a, b | NextInFamily(after, a, b) ensures LinkedTo(after, a, b) {
      RotateKeepsLinks(s, i, hash, expiresAt, now, a, b);
    }
    forall a | 0 <= a < |after| && after[a].replacedBy.Some? ensures NextInFamily(after, a, after[a].replacedBy.value) {
      RotateKeepsTargets(s, i, hash, expiresAt, now, a);
    }
  }

  lemma RotateKeepsCounts(s: Store, i: nat, hash: string, expiresAt: int, now: int)
    requires CountsAgree(s) && i < |s.tokens|
    ensures CountsAgree(Rotate(s, i, hash, expiresAt, now))
  {
    var r, fam := Rotate(s, i, hash, expiresAt, now), s.tokens[i].familyId;
    assert s.tokens[i] in s.tokens;
    forall f ensures |FamilyRows(r.tokens, f)| == RefreshCount(r.events, f) + if HasFamily(r.tokens, f) then 1 else 0 {
      var n := |s.tokens|;
      FamilyRowsSame(s.tokens, r.tokens[..n], f);
      HasFamilySame(s.tokens, r.tokens[..n], f);
      assert r.tokens == r.tokens[..n] + [r.tokens[n]];
      assert r.tokens[n].familyId == fam;
      OtherEventKeepsCount(s.events, SessionRefreshed(fam), f);
      assert HasFamily(s.tokens, fam);
      assert HasFamily(r.tokens, f) <==> HasFamily(r.tokens[..n], f) || f == fam;
    }
  }

  lemma RotateKeepsValid(s: Store, i: nat, hash: string, expiresAt: int, now: int)
    requires Valid(s) && i < |s.tokens| && s.tokens[i].revokedAt.None?
    requires forall t :: t in s.tokens ==> t.tokenHash != hash
    ensures Valid(Rotate(s, i, hash, expiresAt, now))
  {
    RotateKeepsChain(s, i, hash, expiresAt, now);
    RotateKeepsCounts(s, i, hash, expiresAt, now);
  }

  lemma LoginKeepsValid(s: Store, step: Step)
    requires Valid(s) && step.LoginStep? && Fresh(s, step)
    ensures Valid(Take(s, step))
  {
    var r, n := Take(s, step), |s.tokens|;
    assert r.tokens[..n] == s.tokens;
    forall a, b | NextInFamily(r.tokens, a, b) ensures LinkedTo(r.tokens, a, b) {
      assert b < n ==> NextInFamily(s.tokens, a, b);
    }
    forall a | 0 <= a < |r.tokens| && r.tokens[a].replacedBy.Some?
      ensures NextInFamily(r.tokens, a, r.tokens[a].replacedBy.value)
    {
      assert NextInFamily(s.tokens, a, s.tokens[a].replacedBy.value);
    }
    forall f ensures |FamilyRows(r.tokens, f)| == RefreshCount(r.events, f) + if HasFamily(r.tokens, f) then 1 else 0 {
      OtherEventKeepsCount(s.events, SessionCreated(step.tokenId), f);
      assert HasFamily(r.tokens, f) <==> HasFamily(s.tokens, f) || f == step.familyId by {
        assert r.tokens[n] in r.tokens;
      }
    }
    assert CountsAgree(r);
    assert DeadSessionsHaveNoLiveToken(r);
  }

  lemma StepKeepsValid(s: Store, step: Step)
    requires Valid(s) && Fresh(s, step)
    ensures Valid(Take(s, step))
  {
    match step
    case LoginStep(_, _, _, _, _, _) => LoginKeepsValid(s, step);
    case RefreshStep(p, o, h, e, now) =>
      if p.Some? && FindToken(s.tokens, p.value).Some? {
        var i := FindToken(s.tokens, p.value).value;
        if s.tokens[i].revokedAt.Some? { ReuseKeepsValid(s, s.tokens[i].familyId, now); }
        else { RotateKeepsValid(s, i, h, e, now); }
      }
    case LogoutStep(jti, now) =>
      if jti.Some? && FindSession(s.sessions, jti.value).Some? {
        var k := FindSession(s.sessions, jti.value).value;
        KillKeepsValid(s, k, now);
        EventKeepsValid(KillSession(s, k, now), SessionRevoked(jti.value));
      }
    case RevokeStep(u, sid, now) =>
      if FindSessionById(s.sessions, sid, u).Some? {
        KillKeepsValid(s, FindSessionById(s.sessions, sid, u).value, now);
      }
  }

  lemma EmptyIsValid()
    ensures Valid(EMPTY)
  {
    assert forall f :: !HasFamily([], f);
  }

  /** The invariant holds at every point of every run. */
  lemma EveryRunIsValid(trace: seq<Step>, n: nat)
    requires FreshRun(trace) && n <= |trace|
    ensures Valid(Run(trace[..n]))
  {
    forall s, step | Valid(s) && Fresh(s, step) ensures Valid(Take(s, step)) { StepKeepsValid(s, step); }
    EmptyIsValid();
    KeptFrom(Take, Fresh, Valid, EMPTY, trace, 0, n);
  }

  // ----- families -----

  lemma {:induction false} FamilyRowsMeaning(tokens: seq<Token>, f: string)
    ensures var rows := FamilyRows(tokens, f);
            && (forall k :: 0 <= k < |rows| ==> rows[k] < |tokens| && tokens[rows[k]].familyId == f)
            && (forall k :: 0 < k < |rows| ==> rows[k - 1] < rows[k])
            && (forall i :: 0 <= i < |tokens| && tokens[i].familyId == f ==> i in rows)
  {
    if tokens != [] {
      var n := |tokens| - 1;
      FamilyRowsMeaning(tokens[..n], f);
      forall i | 0 <= i < n && tokens[i].familyId == f ensures i in FamilyRows(tokens, f) {
        assert tokens[..n][i].familyId == f;
      }
    }
  }

  lemma {:induction false} Ascending(rows: seq<nat>, a: nat, b: nat)
    requires forall k :: 0 < k < |rows| ==> rows[k - 1] < rows[k]
    requires a < b < |rows|
    ensures rows[a] < rows[b]
    decreases b
  {
    if a < b - 1 { Ascending(rows, a, b - 1); }
  }

  lemma ConsecutiveRows(tokens: seq<Token>, f: string, k: nat)
    requires k + 1 < |FamilyRows(tokens, f)|
    ensures NextInFamily(tokens, FamilyRows(tokens, f)[k], FamilyRows(tokens, f)[k + 1])
  {
    var rows := FamilyRows(tokens, f);
    FamilyRowsMeaning(tokens, f);
    forall v | v in rows ensures !(rows[k] < v < rows[k + 1]) {
      var m: nat :| m < |rows| && rows[m] == v;
      if m < k { Ascending(rows, m, k); }
      if m > k + 1 { Ascending(rows, k + 1, m); }
    }
    assert forall i :: 0 <= i < |tokens| && tokens[i].familyId == f ==> i in rows;
  }

  /** One linear chain in creation order: each token but the last is revoked and replaced by the
      next, the last is replaced by none, and all share a user and a session. */
  ghost predicate LinearChain(tokens: seq<Token>, rows: seq<nat>) {
    && (forall k :: 0 <= k < |rows| ==> rows[k] < |tokens|)
    && (forall k :: 0 <= k < |rows| - 1 ==>
         tokens[rows[k]].replacedBy == Some(rows[k + 1]) && tokens[rows[k]].revokedAt.Some?)
    && (rows != [] ==> tokens[rows[|rows| - 1]].replacedBy == None)
    && (forall k :: 0 <= k < |rows| ==>
          tokens[rows[k]].userId == tokens[rows[0]].userId
          && tokens[rows[k]].sessionTokenId == tokens[rows[0]].sessionTokenId)
  }

  /** In every run each family is a linear chain, one token longer than the number of its
      successful refreshes. */
  lemma FamilyIsChain(trace: seq<Step>, f: string)
    requires FreshRun(trace)
    ensures var s := Run(trace);
            var rows := FamilyRows(s.tokens, f);
            && LinearChain(s.tokens, rows)
            && (rows != [] ==> |rows| == 1 + RefreshCount(s.events, f))
            && (rows == [] ==> RefreshCount(s.events, f) == 0)
  {
    var s := Run(trace);
    assert trace[..|trace|] == trace;
    EveryRunIsValid(trace, |trace|);
    ChainOfFamily(s.tokens, f);
    FamilyHasRows(s.tokens, f);
  }

  lemma FamilyHasRows(tokens: seq<Token>, f: string)
    ensures HasFamily(tokens, f) <==> FamilyRows(tokens, f) != []
  {
    FamilyRowsMeaning(tokens, f);
    var rows := FamilyRows(tokens, f);
    if t :| t in tokens && t.familyId == f {
      var i :| 0 <= i < |tokens| && tokens[i] == t;
      assert i in rows;
    }
    if rows != [] { assert tokens[rows[0]] in tokens; }
  }

  lemma ChainOfFamily(tokens: seq<Token>, f: string)
    requires Chained(tokens)
    ensures LinearChain(tokens, FamilyRows(tokens, f))
  {
    var rows := FamilyRows(tokens, f);
    FamilyLinks(tokens, f, rows);
    forall k | 0 <= k < |rows| - 1
      ensures tokens[rows[k]].replacedBy == Some(rows[k + 1]) && tokens[rows[k]].revokedAt.Some?
    {
      assert LinkedTo(tokens, rows[k], rows[k + 1]);
    }
    forall k: nat | k < |rows|
      ensures tokens[rows[k]].userId == tokens[rows[0]].userId
           && tokens[rows[k]].sessionTokenId == tokens[rows[0]].sessionTokenId
    {
      SharedAlong(tokens, rows, k);
    }
    if rows != [] { LastHasNoSuccessor(tokens, f); }
  }

  lemma FamilyLinks(tokens: seq<Token>, f: string, rows: seq<nat>)
    requires Chained(tokens) && rows == FamilyRows(tokens, f)
    ensures forall k :: 0 <= k < |rows| ==> rows[k] < |tokens|
    ensures forall k :: 0 <= k < |rows| - 1 ==> LinkedTo(tokens, rows[k], rows[k + 1])
  {
    FamilyRowsMeaning(tokens, f);
    forall k | 0 <= k < |rows| - 1 ensures LinkedTo(tokens, rows[k], rows[k + 1]) {
      ConsecutiveRows(tokens, f, k);
      assert NextInFamily(tokens, rows[k], rows[k + 1]);
    }
  }

  lemma LastHasNoSuccessor(tokens: seq<Token>, f: string)
    requires Chained(tokens) && FamilyRows(tokens, f) != []
    ensures var rows := FamilyRows(tokens, f);
            rows[|rows| - 1] < |tokens| && tokens[rows[|rows| - 1]].replacedBy == None
  {
    var rows := FamilyRows(tokens, f);
    FamilyRowsMeaning(tokens, f);
    var last := rows[|rows| - 1];
    if tokens[last].replacedBy.Some? {
      var next := tokens[last].replacedBy.value;
      assert NextInFamily(tokens, last, next);
      var m: nat :| m < |rows| && rows[m] == next;
      AtMostLast(rows, m);
    }
  }

  lemma AtMostLast(rows: seq<nat>, m: nat)
    requires m < |rows| && forall k :: 0 < k < |rows| ==> rows[k - 1] < rows[k]
    ensures rows[m] <= rows[|rows| - 1]
  {
    if m < |rows| - 1 { Ascending(rows, m, |rows| - 1); }
  }

  lemma {:induction false} SharedAlong(tokens: seq<Token>, rows: seq<nat>, k: nat)
    requires k < |rows| && forall m :: 0 <= m < |rows| ==> rows[m] < |tokens|
    requires forall m :: 0 <= m < |rows| - 1 ==> LinkedTo(tokens, rows[m], rows[m + 1])
    ensures tokens[rows[k]].userId == tokens[rows[0]].userId
    ensures tokens[rows[k]].sessionTokenId == tokens[rows[0]].sessionTokenId
  {
    if k > 0 {
      SharedAlong(tokens, rows, k - 1);
      assert LinkedTo(tokens, rows[k - 1], rows[k - 1 + 1]);
    }
  }

  // ----- reuse and redemption -----

  ghost function Result(s: Store, step: Step): RefreshResult
    requires step.RefreshStep?
  {
    Refresh(s, step.presented, step.owner, step.newHash, step.newExpiry, step.now).1
  }

  /** The step redeems the secret `h` successfully. */
  ghost predicate Redeems(s: Store, step: Step, h: string) {
    step.RefreshStep? && step.presented == Some(h) && Result(s, step).Refreshed?
  }

  /** The secret `h` belongs to family `f`. */
  ghost predicate Belongs(s: Store, h: string, f: string) {
    exists i :: HoldsAt(s.tokens, i, h) && s.tokens[i].familyId == f
  }

  ghost predicate HoldsAt(tokens: seq<Token>, i: int, h: string) {
    0 <= i < |tokens| && tokens[i].tokenHash == h
  }

  ghost predicate DeadFamily(s: Store, f: string) {
    HasFamily(s.tokens, f) && forall i :: 0 <= i < |s.tokens| && s.tokens[i].familyId == f ==>
      s.tokens[i].revokedAt.Some?
  }

  lemma LookupIsUnique(tokens: seq<Token>, h: string, i: int)
    requires UniqueHashes(tokens) && HoldsAt(tokens, i, h)
    ensures FindToken(tokens, h) == Some(i)
  {
  }

  lemma DeadFamilyRefuses(s: Store, step: Step, h: string, f: string)
    requires UniqueHashes(s.tokens) && DeadFamily(s, f) && Belongs(s, h, f)
    ensures !Redeems(s, step, h)
  {
    var i :| HoldsAt(s.tokens, i, h) && s.tokens[i].familyId == f;
    LookupIsUnique(s.tokens, h, i);
  }

  /** Steps keep existing rows in place and never bring a revoked one back to life. */
  ghost predicate RowsKept(before: seq<Token>, after: seq<Token>) {
    |before| <= |after| &&
    forall i :: 0 <= i < |before| ==>
      && after[i].tokenHash == before[i].tokenHash && after[i].familyId == before[i].familyId
      && after[i].sessionTokenId == before[i].sessionTokenId
      && (before[i].revokedAt.Some? ==> after[i].revokedAt.Some?)
  }

  lemma StepKeepsRows(s: Store, step: Step)
    ensures RowsKept(s.tokens, Take(s, step).tokens)
  {
  }

  lemma StepKeepsDead(s: Store, step: Step, f: string)
    requires Valid(s) && Fresh(s, step) && DeadFamily(s, f)
    ensures DeadFamily(Take(s, step), f)
  {
    StepKeepsRows(s, step);
    StaysInFamily(s.tokens, Take(s, step).tokens, f);
    if step.RefreshStep? && step.presented.Some? && FindToken(s.tokens, step.presented.value).Some? {
      var k := FindToken(s.tokens, step.presented.value).value;
      if s.tokens[k].revokedAt.None? { assert s.tokens[k].familyId != f; }
    }
  }

  lemma StaysInFamily(before: seq<Token>, after: seq<Token>, f: string)
    requires RowsKept(before, after) && HasFamily(before, f)
    ensures HasFamily(after, f)
  {
    var t :| t in before && t.familyId == f;
    var i :| 0 <= i < |before| && before[i] == t;
    assert after[i] in after;
  }

  lemma DeadForGood(trace: seq<Step>, i: nat, j: nat, f: string)
    requires FreshRun(trace) && i <= j <= |trace| && DeadFamily(Run(trace[..i]), f)
    ensures DeadFamily(Run(trace[..j]), f)
  {
    var inv := (s: Store) => Valid(s) && DeadFamily(s, f);
    forall s, step | inv(s) && Fresh(s, step) ensures inv(Take(s, step)) {
      StepKeepsValid(s, step);
      StepKeepsDead(s, step, f);
    }
    EveryRunIsValid(trace, i);
    KeptFrom(Take, Fresh, inv, EMPTY, trace, i, j);
  }

  /** Reuse detection: once a revoked token of a family is presented, at step `i`, no token of
      that family is ever redeemed again, at any later step `j`. */
  lemma ReuseEndsFamily(trace: seq<Step>, i: nat, j: nat, f: string, h: string)
    requires FreshRun(trace) && i < j < |trace|
    requires trace[i].RefreshStep? && Result(Run(trace[..i]), trace[i]) == Reused
    requires Belongs(Run(trace[..i]), trace[i].presented.value, f)
    requires Belongs(Run(trace[..j]), h, f)
    ensures !Redeems(Run(trace[..j]), trace[j], h)
  {
    var s := Run(trace[..i]);
    EveryRunIsValid(trace, i);
    var r :| HoldsAt(s.tokens, r, trace[i].presented.value) && s.tokens[r].familyId == f;
    LookupIsUnique(s.tokens, trace[i].presented.value, r);
    assert trace[..i + 1][..i] == trace[..i];
    var s' := Run(trace[..i + 1]);
    assert s'.tokens == RevokeFamily(s.tokens, f, trace[i].now);
    assert s'.tokens[r] in s'.tokens;
    assert DeadFamily(s', f);
    DeadForGood(trace, i + 1, j, f);
    EveryRunIsValid(trace, j);
    DeadFamilyRefuses(Run(trace[..j]), trace[j], h, f);
  }

  ghost predicate SpentAt(s: Store, r: nat, h: string) {
    r < |s.tokens| && s.tokens[r].revokedAt.Some? && s.tokens[r].tokenHash == h
  }

  lemma RevokedForGood(trace: seq<Step>, i: nat, j: nat, r: nat, h: string)
    requires FreshRun(trace) && i <= j <= |trace| && SpentAt(Run(trace[..i]), r, h)
    ensures SpentAt(Run(trace[..j]), r, h)
  {
    var inv := (s: Store) => SpentAt(s, r, h);
    forall s, step | inv(s) && Fresh(s, step) ensures inv(Take(s, step)) { StepKeepsRows(s, step); }
    KeptFrom(Take, Fresh, inv, EMPTY, trace, i, j);
  }

  /** A token is redeemed at most once over the whole run. */
  lemma RedeemedAtMostOnce(trace: seq<Step>, i: nat, j: nat, h: string)
    requires FreshRun(trace) && i < j < |trace|
    requires Redeems(Run(trace[..i]), trace[i], h)
    ensures !Redeems(Run(trace[..j]), trace[j], h)
  {
    var s := Run(trace[..i]);
    var r := FindToken(s.tokens, h).value;
    assert trace[..i + 1][..i] == trace[..i];
    assert SpentAt(Run(trace[..i + 1]), r, h);
    RevokedForGood(trace, i + 1, j, r, h);
    EveryRunIsValid(trace, j);
    LookupIsUnique(Run(trace[..j]).tokens, h, r);
  }

  // ----- sessions -----

  lemma StepKeepsSessionDead(s: Store, step: Step, k: nat)
    requires k < |s.sessions| && s.sessions[k].revokedAt.Some?
    ensures k < |Take(s, step).sessions| && Take(s, step).sessions[k].revokedAt.Some?
    ensures Take(s, step).sessions[k].tokenId == s.sessions[k].tokenId
  {
  }

  ghost predicate SessionRevokedAt(s: Store, k: nat, tokenId: string) {
    k < |s.sessions| && s.sessions[k].revokedAt.Some? && s.sessions[k].tokenId == tokenId
  }

  /** From the moment a session is revoked, in every later state of the run, it stays revoked and
      no refresh token bound to it is unrevoked. */
  lemma RevokedSessionIsDead(trace: seq<Step>, i: nat, j: nat, k: nat, tokenId: string)
    requires FreshRun(trace) && i <= j <= |trace| && SessionRevokedAt(Run(trace[..i]), k, tokenId)
    ensures SessionRevokedAt(Run(trace[..j]), k, tokenId)
    ensures forall t :: t in Run(trace[..j]).tokens && t.sessionTokenId == tokenId ==> t.revokedAt.Some?
  {
    var inv := (s: Store) => SessionRevokedAt(s, k, tokenId);
    forall s, step | inv(s) && Fresh(s, step) ensures inv(Take(s, step)) { StepKeepsSessionDead(s, step, k); }
    KeptFrom(Take, Fresh, inv, EMPTY, trace, i, j);
    EveryRunIsValid(trace, j);
  }
}
