/** Sessions and rotating refresh tokens: login, refresh with reuse detection, logout and
    revocation of a session by id.

    A token row is known by its position in the table, which is its creation order; what a
    client presents is looked up by its hash.  Fresh random values are inputs. */
module RefreshTokens {
  import opened Prelude

  datatype Token = Token(
    userId: string,
    tokenHash: string,
    familyId: string,
    sessionTokenId: string,
    expiresAt: int,
    revokedAt: Option<int>,
    replacedBy: Option<nat>)

  datatype Session = Session(sessionId: string, userId: string, tokenId: string, revokedAt: Option<int>)

  datatype AuthEvent =
    | SessionCreated(tokenId: string)
    | SessionRefreshed(familyId: string)
    | ReuseDetected(familyId: string)
    | SessionRevoked(tokenId: string)

  datatype Store = Store(tokens: seq<Token>, sessions: seq<Session>, events: seq<AuthEvent>)

  const EMPTY := Store([], [], [])

  /** What the owner of a token may do at the moment of a refresh. */
  datatype Owner = Gone | Denied | Allowed

  datatype RefreshResult =
    | Missing
    | Unrecognized
    | Reused
    | Expired
    | OwnerGone
    | LoginDenied
    | Refreshed(successor: nat)

  // ----- what each operation does to the tables -----

  /** The row whose hash is `h`: the first one, though there is at most one. */
  function FindToken(tokens: seq<Token>, h: string): (r: Option<nat>)
    ensures r.Some? ==> r.value < |tokens| && tokens[r.value].tokenHash == h
    ensures r.None? ==> forall i :: 0 <= i < |tokens| ==> tokens[i].tokenHash != h
  {
    if tokens == [] then None else
    var n := |tokens| - 1;
    var front := FindToken(tokens[..n], h);
    if front.Some? then front else if tokens[n].tokenHash == h then Some(n) else None
  }

  function Revoked(t: Token, now: int): Token {
    if t.revokedAt.None? then t.(revokedAt := Some(now)) else t
  }

  function RevokeFamily(tokens: seq<Token>, familyId: string, now: int): seq<Token> {
    seq(|tokens|, i requires 0 <= i < |tokens| =>
      if tokens[i].familyId == familyId then Revoked(tokens[i], now) else tokens[i])
  }

  function RevokeForSession(tokens: seq<Token>, tokenId: string, now: int): seq<Token> {
    seq(|tokens|, i requires 0 <= i < |tokens| =>
      if tokens[i].sessionTokenId == tokenId then Revoked(tokens[i], now) else tokens[i])
  }

  function FindSession(sessions: seq<Session>, tokenId: string): (r: Option<nat>)
    ensures r.Some? ==> r.value < |sessions| && sessions[r.value].tokenId == tokenId
    ensures r.None? ==> forall i :: 0 <= i < |sessions| ==> sessions[i].tokenId != tokenId
  {
    if sessions == [] then None else
    var n := |sessions| - 1;
    var front := FindSession(sessions[..n], tokenId);
    if front.Some? then front else if sessions[n].tokenId == tokenId then Some(n) else None
  }

  function FindSessionById(sessions: seq<Session>, sessionId: string, userId: string): (r: Option<nat>)
    ensures r.Some? ==>
      r.value < |sessions| && sessions[r.value].sessionId == sessionId && sessions[r.value].userId == userId
    ensures r.None? ==> forall i :: 0 <= i < |sessions| ==>
      sessions[i].sessionId != sessionId || sessions[i].userId != userId
  {
    if sessions == [] then None else
    var n := |sessions| - 1;
    var front := FindSessionById(sessions[..n], sessionId, userId);
    if front.Some? then front
    else if sessions[n].sessionId == sessionId && sessions[n].userId == userId then Some(n) else None
  }

  /** A login opens a session and starts a new token family. */
  function Login(
      s: Store, userId: string, sessionId: string, tokenId: string, familyId: string, hash: string, expiresAt: int)
    : Store
  {
    Store(s.tokens + [Token(userId, hash, familyId, tokenId, expiresAt, None, None)],
          s.sessions + [Session(sessionId, userId, tokenId, None)],
          s.events + [SessionCreated(tokenId)])
  }

  /** Redeeming token `i` adds its successor to the family and retires `i`. */
  function Rotate(s: Store, i: nat, hash: string, expiresAt: int, now: int): Store
    requires i < |s.tokens|
  {
    var t := s.tokens[i];
    var successor := Token(t.userId, hash, t.familyId, t.sessionTokenId, expiresAt, None, None);
    s.(tokens := (s.tokens + [successor])[i := t.(revokedAt := Some(now), replacedBy := Some(|s.tokens|))],
       events := s.events + [SessionRefreshed(t.familyId)])
  }

  function Refresh(
      s: Store, presented: Option<string>, owner: Owner, newHash: string, newExpiry: int, now: int)
    : (Store, RefreshResult)
  {
    if presented.None? then (s, Missing) else
    var found := FindToken(s.tokens, presented.value);
    if found.None? then (s, Unrecognized) else
    var t := s.tokens[found.value];
    if t.revokedAt.Some? then
      (s.(tokens := RevokeFamily(s.tokens, t.familyId, now), events := s.events + [ReuseDetected(t.familyId)]), Reused)
    else if t.expiresAt <= now then (s, Expired)
    else match owner
      case Gone => (s, OwnerGone)
      case Denied => (s, LoginDenied)
      case Allowed => (Rotate(s, found.value, newHash, newExpiry, now), Refreshed(|s.tokens|))
  }

  /** Kills session row `k` together with the live tokens bound to it. */
  function KillSession(s: Store, k: nat, now: int): Store
    requires k < |s.sessions|
  {
    s.(tokens := RevokeForSession(s.tokens, s.sessions[k].tokenId, now),
       sessions := s.sessions[k := s.sessions[k].(revokedAt := Some(now))])
  }

  /** Logging out commits only when it revokes the session: otherwise the token updates it made
      are rolled back with the transaction. */
  function Logout(s: Store, tokenId: Option<string>, now: int): Store {
    if tokenId.None? then s else
    var found := FindSession(s.sessions, tokenId.value);
    if found.Some? && s.sessions[found.value].revokedAt.None? then
      KillSession(s, found.value, now).(events := s.events + [SessionRevoked(tokenId.value)])
    else s
  }

  function RevokeById(s: Store, userId: string, sessionId: string, now: int): (Store, bool) {
    var found := FindSessionById(s.sessions, sessionId, userId);
    if found.Some? && s.sessions[found.value].revokedAt.None? then (KillSession(s, found.value, now), true)
    else (s, false)
  }

  // ----- the service -----

  class AuthService {
    var tokens: seq<Token>
    var sessions: seq<Session>
    var events: seq<AuthEvent>

    constructor ()
      ensures State() == EMPTY
    {
      tokens, sessions, events := [], [], [];
    }

    ghost function State(): Store
      reads this
    {
      Store(tokens, sessions, events)
    }

    method IssueUserToken(
        userId: string, sessionId: string, tokenId: string, familyId: string, hash: string, expiresAt: int)
      modifies this
      ensures State() == Login(old(State()), userId, sessionId, tokenId, familyId, hash, expiresAt)
    {
      sessions := sessions + [Session(sessionId, userId, tokenId, None)];
      var _ := IssueRefreshToken(userId, tokenId, hash, familyId, expiresAt);
      events := events + [SessionCreated(tokenId)];
    }

    method IssueRefreshToken(
        userId: string, tokenId: string, hash: string, familyId: string, expiresAt: int) returns (row: nat)
      modifies this`tokens
      ensures row == |old(tokens)|
      ensures tokens == old(tokens) + [Token(userId, hash, familyId, tokenId, expiresAt, None, None)]
    {
      row := |tokens|;
      tokens := tokens + [Token(userId, hash, familyId, tokenId, expiresAt, None, None)];
    }

    method RevokeTokenFamily(familyId: string, now: int)
      modifies this`tokens
      ensures tokens == RevokeFamily(old(tokens), familyId, now)
    {
      for i := 0 to |tokens|
        invariant |tokens| == |old(tokens)|
        invariant tokens[..i] == RevokeFamily(old(tokens), familyId, now)[..i]
        invariant tokens[i..] == old(tokens)[i..]
      {
        assert tokens[i] == tokens[i..][0] == old(tokens)[i];
        if tokens[i].familyId == familyId && tokens[i].revokedAt.None? {
          tokens := tokens[i := tokens[i].(revokedAt := Some(now))];
        }
      }
    }

    method RevokeRefreshTokensForSession(tokenId: string, now: int)
      modifies this`tokens
      ensures tokens == RevokeForSession(old(tokens), tokenId, now)
    {
      for i := 0 to |tokens|
        invariant |tokens| == |old(tokens)|
        invariant tokens[..i] == RevokeForSession(old(tokens), tokenId, now)[..i]
        invariant tokens[i..] == old(tokens)[i..]
      {
        assert tokens[i] == tokens[i..][0] == old(tokens)[i];
        if tokens[i].sessionTokenId == tokenId && tokens[i].revokedAt.None? {
          tokens := tokens[i := tokens[i].(revokedAt := Some(now))];
        }
      }
    }

    method RefreshSession(presented: Option<string>, owner: Owner, newHash: string, newExpiry: int, now: int)
      returns (result: RefreshResult)
      modifies this
      ensures (State(), result) == Refresh(old(State()), presented, owner, newHash, newExpiry, now)
    {
      if presented.None? { return Missing; }
      var found := FindToken(tokens, presented.value);
      if found.None? { return Unrecognized; }
      var i := found.value;
      var record := tokens[i];
      if record.revokedAt.Some? {
        RevokeTokenFamily(record.familyId, now);
        events := events + [ReuseDetected(record.familyId)];
        return Reused;
      }
      if record.expiresAt <= now { return Expired; }
      if owner.Gone? { return OwnerGone; }
      if owner.Denied? { return LoginDenied; }
      var successor := IssueRefreshToken(record.userId, record.sessionTokenId, newHash, record.familyId, newExpiry);
      tokens := tokens[i := record.(revokedAt := Some(now), replacedBy := Some(successor))];
      events := events + [SessionRefreshed(record.familyId)];
      result := Refreshed(successor);
    }

    method RevokeUserSession(tokenId: string, now: int) returns (revoked: bool)
      modifies this`sessions
      ensures var found := FindSession(old(sessions), tokenId);
              revoked == (found.Some? && old(sessions)[found.value].revokedAt.None?)
              && sessions ==
                 if revoked then old(sessions)[found.value := old(sessions)[found.value].(revokedAt := Some(now))]
                 else old(sessions)
    {
      var found := FindSession(sessions, tokenId);
      if found.Some? && sessions[found.value].revokedAt.None? {
        sessions := sessions[found.value := sessions[found.value].(revokedAt := Some(now))];
        return true;
      }
      revoked := false;
    }

    /** `tokenId` is the `jti` of the access token, if one was given and it decodes. */
    method LogoutUser(tokenId: Option<string>, now: int)
      modifies this
      ensures State() == Logout(old(State()), tokenId, now)
    {
      if tokenId.None? { return; }
      var uncommitted := tokens;
      RevokeRefreshTokensForSession(tokenId.value, now);
      var wasRevoked := RevokeUserSession(tokenId.value, now);
      if wasRevoked {
        events := events + [SessionRevoked(tokenId.value)];
      } else {
        tokens := uncommitted;  // the request ends without a commit
      }
    }

    method RevokeUserSessionById(userId: string, sessionId: string, now: int) returns (revoked: bool)
      modifies this
      ensures (State(), revoked) == RevokeById(old(State()), userId, sessionId, now)
    {
      var found := FindSessionById(sessions, sessionId, userId);
      if found.Some? && sessions[found.value].revokedAt.None? {
        var k := found.value;
        sessions := sessions[k := sessions[k].(revokedAt := Some(now))];
        RevokeRefreshTokensForSession(sessions[k].tokenId, now);
        return true;
      }
      revoked := false;
    }
  }
}
