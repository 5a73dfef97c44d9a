/**
 * The in-memory session registry (internal/auth/session.go): opaque tokens mapped to
 * authenticated users, each valid for a fixed 24 hours, reclaimed lazily on lookup and by
 * an hourly sweep. The clock is the `now` argument; the token is the value the random
 * source produced (None when `crypto/rand` failed).
 */
module Sessions {
  import opened Wrappers
  import opened Models

  const SessionLifetime: int := 24 * Hour

  datatype Session = Session(token: string, user: User, createdAt: int, expiresAt: int)

  datatype SessionError =
    | SessionNotFound   // ErrSessionNotFound
    | SessionExpired    // ErrSessionExpired
    | TokenUnavailable  // the random source failed

  /** `now.After(expiresAt)`: strictly later, so a session is still good at its expiry instant. */
  predicate Expired(s: Session, now: int) {
    now > s.expiresAt
  }

  /** The sessions still good at `now`: what the sweep leaves behind. */
  function Unexpired(m: map<string, Session>, now: int): (r: map<string, Session>)
    ensures r.Keys <= m.Keys
    ensures forall t :: t in m ==> (t in r <==> !Expired(m[t], now))
    ensures forall t :: t in r ==> r[t] == m[t]
  {
    map t | t in m && !Expired(m[t], now) :: m[t]
  }

  /** What GetSession answers for a token at `now`, ignoring its eviction side effect. */
  function Lookup(m: map<string, Session>, token: string, now: int): Result<Session, SessionError> {
    if token !in m then Failure(SessionNotFound)
    else if Expired(m[token], now) then Failure(SessionExpired)
    else Success(m[token])
  }

  class SessionStore {
    var sessions: map<string, Session>

    /** Every session is filed under its own token and lives exactly 24 hours. */
    ghost predicate Valid()
      reads this
    {
      forall t :: t in sessions ==>
        sessions[t].token == t && sessions[t].expiresAt == sessions[t].createdAt + SessionLifetime
    }

    /** NewSessionStore (the cleanup goroutine it starts is CleanupExpiredSessions, called explicitly). */
    constructor ()
      ensures Valid() && sessions == map[]
    {
      sessions := map[];
    }

    method CreateSession(user: User, token: Option<string>, now: int) returns (r: Result<Session, SessionError>)
      requires Valid()
      modifies this
      ensures Valid()
      ensures token.None? ==> r == Failure(TokenUnavailable) && sessions == old(sessions)
      ensures token.Some? ==> r == Success(Session(token.value, user, now, now + SessionLifetime))
      ensures token.Some? ==> sessions == old(sessions)[token.value := r.value]
    {
      if token.None? {
        return Failure(TokenUnavailable);
      }
      var session := Session(token.value, user, now, now + SessionLifetime);
      sessions := sessions[token.value := session];
      r := Success(session);
    }

    method GetSession(token: string, now: int) returns (r: Result<Session, SessionError>)
      requires Valid()
      modifies this
      ensures Valid()
      ensures r == Lookup(old(sessions), token, now)
      ensures r.Success? ==> r.value.token == token && sessions == old(sessions)
      ensures r.Success? ==> now <= r.value.createdAt + SessionLifetime
      ensures r == Failure(SessionNotFound) ==> sessions == old(sessions)
      ensures r == Failure(SessionExpired) ==> sessions == old(sessions) - {token}
    {
      if token !in sessions {
        return Failure(SessionNotFound);
      }
      var session := sessions[token];
      if now > session.expiresAt {
        DeleteSession(token);
        return Failure(SessionExpired);
      }
      r := Success(session);
    }

    /** Idempotent removal: no error when the token is absent. */
    method DeleteSession(token: string)
      requires Valid()
      modifies this
      ensures Valid()
      ensures sessions == old(sessions) - {token}
    {
      sessions := sessions - {token};
    }

    /** One pass of cleanupExpiredSessions: delete every entry that has expired at `now`. */
    method CleanupExpiredSessions(now: int)
      requires Valid()
      modifies this
      ensures Valid()
      ensures sessions == Unexpired(old(sessions), now)
      ensures forall t :: t in sessions ==> now <= sessions[t].createdAt + SessionLifetime
    {
      var pending := sessions.Keys;
      while pending != {}
        invariant pending <= old(sessions).Keys
        invariant sessions.Keys <= old(sessions).Keys
        invariant forall t :: t in sessions ==> sessions[t] == old(sessions)[t]
        invariant forall t :: t in old(sessions) && t !in pending ==>
          (t in sessions <==> !Expired(old(sessions)[t], now))
        invariant forall t :: t in pending ==> t in sessions
        decreases pending
      {
        var token :| token in pending;
        if now > sessions[token].expiresAt {
          sessions := sessions - {token};
        }
        pending := pending - {token};
      }
    }
  }

  /** Right after CreateSession, GetSession returns the same session, for the user it was made for, for 24 hours. */
  lemma CreateThenGet(m: map<string, Session>, user: User, token: string, created: int, now: int)
    requires created <= now <= created + SessionLifetime
    ensures var s := Session(token, user, created, created + SessionLifetime);
      Lookup(m[token := s], token, now) == Success(s)
  {
  }

  /** Once past its expiry a session is refused whether or not it was swept. */
  lemma ExpiredRefusedWithOrWithoutSweep(m: map<string, Session>, token: string, sweptAt: int, now: int)
    requires token in m && Expired(m[token], now) && sweptAt <= now
    ensures Lookup(m, token, now) == Failure(SessionExpired)
    ensures Lookup(Unexpired(m, sweptAt), token, now).Failure?
  {
  }

  /** Sweeping twice at the same instant removes nothing more. */
  lemma SweepIdempotent(m: map<string, Session>, now: int)
    ensures Unexpired(Unexpired(m, now), now) == Unexpired(m, now)
  {
  }

  /** A sweep never changes what a lookup at the same instant succeeds with. */
  lemma SweepPreservesLiveLookups(m: map<string, Session>, token: string, now: int)
    ensures Lookup(m, token, now).Success? <==> Lookup(Unexpired(m, now), token, now).Success?
    ensures Lookup(m, token, now).Success? ==> Lookup(Unexpired(m, now), token, now) == Lookup(m, token, now)
  {
  }

  /** A sweep only ever removes sessions: an earlier sweep keeps everything a later one keeps. */
  lemma SweepMonotone(m: map<string, Session>, t1: int, t2: int)
    requires t1 <= t2
    ensures Unexpired(m, t2).Keys <= Unexpired(m, t1).Keys
    ensures Unexpired(Unexpired(m, t1), t2) == Unexpired(m, t2)
  {
  }
}
