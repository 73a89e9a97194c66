/**
 * The session table of the server (server/storage.go). The bbolt bucket `sessions` is a map
 * from session id to the bytes stored under it, which either decode into a `Session` or do
 * not. Time is an integer number of seconds; `time.Now()` is a parameter of each operation.
 */
module SessionStorage {
  import opened Wrappers

  /** `SpotifyTokenResponse`. */
  datatype Token = Token(accessToken: string, tokenType: string, expiresIn: int, refreshToken: string, scope: string)

  /** `Session`. */
  datatype Session = Session(id: string, token: Token, expiresAt: int)

  /** What is stored under a key: a session, or bytes that do not decode into one. */
  datatype Entry = Stored(session: Session) | Undecodable

  type Bucket = map<string, Entry>

  datatype StorageError = NotFound | Expired | BadEntry

  /**
   * What `GetSession` ends with: the session, an error, or a successful refresh after
   * which it looks the session up again.
   */
  datatype Outcome = Found(session: Session) | Failed(error: StorageError) | LookUpAgain

  /** `time.Now().After(session.ExpiresAt)`. */
  predicate IsExpired(s: Session, now: int)
  {
    now > s.expiresAt
  }

  /** An entry that decodes into a session which has expired. */
  predicate ExpiredEntry(e: Entry, now: int)
  {
    e.Stored? && IsExpired(e.session, now)
  }

  /** Every session is stored under its own id, as `StoreSession` and `UpdateSession` do. */
  predicate WellKeyed(b: Bucket)
  {
    forall k :: k in b && b[k].Stored? ==> b[k].session.id == k
  }

  /** The session `StoreSession` writes: it expires `ExpiresIn` seconds from now. */
  function NewSession(id: string, token: Token, now: int): (s: Session)
    ensures s.id == id && s.token == token
    ensures IsExpired(s, now) <==> token.expiresIn < 0
  {
    Session(id, token, now + token.expiresIn)
  }

  /**
   * The session `UpdateSession` writes: the new token, except that an empty refresh token
   * leaves the old one in place, and a new expiry `ExpiresIn` seconds from now.
   */
  function WithNewToken(s: Session, t: Token, now: int): (r: Session)
    ensures r.id == s.id
    ensures r.token.refreshToken == if t.refreshToken == "" then s.token.refreshToken else t.refreshToken
    ensures r.token.(refreshToken := "") == t.(refreshToken := "")
    ensures r.expiresAt == now + t.expiresIn
  {
    var token := if t.refreshToken == "" && s.token.refreshToken != "" then t.(refreshToken := s.token.refreshToken) else t;
    s.(token := token, expiresAt := now + token.expiresIn)
  }

  /** The ids `CleanupExpiredSessions` collects: the `ID` of every expired session that decodes. */
  function ExpiredIds(b: Bucket, now: int): set<string>
  {
    set k | k in b && ExpiredEntry(b[k], now) :: b[k].session.id
  }

  /** What `GetSession` returns for the entry stored under the id, if any. */
  function LookupOutcome(b: Bucket, id: string, now: int, refreshed: Option<Token>): Outcome
  {
    if id !in b then Failed(NotFound)
    else match b[id]
      case Undecodable => Failed(BadEntry)
      case Stored(s) =>
        if !IsExpired(s, now) then Found(s)
        else if s.token.refreshToken != "" && refreshed.Some? then LookUpAgain
        else Failed(Expired)
  }

  /** A session just stored is found, unchanged, by any lookup up to its expiry. */
  lemma StoreThenLookup(b: Bucket, id: string, token: Token, now: int, later: int, refreshed: Option<Token>)
    requires now <= later <= now + token.expiresIn
    ensures LookupOutcome(b[id := Stored(NewSession(id, token, now))], id, later, refreshed) ==
      Found(Session(id, token, now + token.expiresIn))
  {
  }

  /** The lookup fails exactly when the entry is missing, undecodable, or expired with no refresh. */
  lemma LookupFailures(b: Bucket, id: string, now: int, refreshed: Option<Token>)
    ensures LookupOutcome(b, id, now, refreshed).Failed? <==>
      || id !in b
      || b[id].Undecodable?
      || (ExpiredEntry(b[id], now) && (b[id].session.token.refreshToken == "" || refreshed.None?))
    ensures LookupOutcome(b, id, now, refreshed).Found? ==>
      id in b && b[id] == Stored(LookupOutcome(b, id, now, refreshed).session) && !ExpiredEntry(b[id], now)
  {
  }

  /**
   * A refresh never loses a refresh token: after an update the stored one is empty only
   * when both the old and the new ones were.
   */
  lemma RefreshTokenKept(s: Session, t: Token, now: int)
    ensures WithNewToken(s, t, now).token.refreshToken == "" <==> s.token.refreshToken == "" && t.refreshToken == ""
  {
  }

  /**
   * On a table where every session sits under its own id, cleanup removes exactly the
   * expired sessions that decode, and keeps every other entry as it was.
   */
  lemma {:induction false} CleanupRemovesExactlyExpired(b: Bucket, now: int)
    requires WellKeyed(b)
    ensures forall k :: k in b - ExpiredIds(b, now) <==> k in b && !ExpiredEntry(b[k], now)
    ensures forall k :: k in b - ExpiredIds(b, now) ==> (b - ExpiredIds(b, now))[k] == b[k]
  {
    forall k | k in b && ExpiredEntry(b[k], now)
      ensures k in ExpiredIds(b, now)
    {
      assert b[k].session.id == k;
    }
    forall k | k in ExpiredIds(b, now)
      ensures k in b && ExpiredEntry(b[k], now)
    {
      var k' :| k' in b && ExpiredEntry(b[k'], now) && b[k'].session.id == k;
      assert k' == k;
    }
  }

  /** The `sessions` bucket and the operations on it. */
  class SessionStore {
    var bucket: Bucket

    /**
     * `InitDB`: the `sessions` bucket of the database file, as `CreateBucketIfNotExists`
     * finds it: the sessions an earlier run stored, or empty on the first run.
     */
    constructor(stored: Bucket)
      ensures bucket == stored
    {
      bucket := stored;
    }

    /**
     * `StoreSession` with the freshly generated `sessionId`: the session is written under
     * its id, expiring `ExpiresIn` seconds from now; nothing else changes.
     */
    method StoreSession(sessionId: string, tokenResponse: Token, now: int) returns (id: string)
      modifies this
      ensures id == sessionId
      ensures bucket == old(bucket)[sessionId := Stored(NewSession(sessionId, tokenResponse, now))]
      ensures WellKeyed(old(bucket)) ==> WellKeyed(bucket)
    {
      var expiresAt := now + tokenResponse.expiresIn;
      var session := Session(sessionId, tokenResponse, expiresAt);
      bucket := bucket[sessionId := Stored(session)];
      id := sessionId;
    }

    /**
     * `UpdateSession`: fails on a missing or undecodable entry and changes nothing;
     * otherwise writes the session back with the new token and expiry.
     */
    method UpdateSession(sessionId: string, tokenResponse: Token, now: int) returns (err: Option<StorageError>)
      modifies this
      ensures sessionId !in old(bucket) ==> err == Some(NotFound) && bucket == old(bucket)
      ensures sessionId in old(bucket) && old(bucket)[sessionId].Undecodable? ==>
        err == Some(BadEntry) && bucket == old(bucket)
      ensures sessionId in old(bucket) && old(bucket)[sessionId].Stored? ==>
        err == None &&
        bucket == old(bucket)[sessionId := Stored(WithNewToken(old(bucket)[sessionId].session, tokenResponse, now))]
      ensures WellKeyed(old(bucket)) ==> WellKeyed(bucket)
    {
      if sessionId !in bucket {
        return Some(NotFound);
      }
      var entry := bucket[sessionId];
      if entry.Undecodable? {
        return Some(BadEntry);
      }
      var session := entry.session;
      var token := tokenResponse;
      if token.refreshToken == "" && session.token.refreshToken != "" {
        token := token.(refreshToken := session.token.refreshToken);
      }
      session := session.(token := token, expiresAt := now + token.expiresIn);
      bucket := bucket[sessionId := Stored(session)];
      err := None;
    }

    /** `DeleteSession`: that key goes, every other entry stays. */
    method DeleteSession(sessionId: string)
      modifies this
      ensures bucket == old(bucket) - {sessionId}
      ensures WellKeyed(old(bucket)) ==> WellKeyed(bucket)
    {
      bucket := bucket - {sessionId};
    }

    /**
     * `GetSession`, with `refreshed` the token `RefreshAccessToken` returns, or `None` when
     * it fails. A missing or undecodable entry is an error. A session that has not expired
     * is returned and nothing changes. An expired one with a refresh token and a successful
     * refresh is updated, and the lookup is to be made again. Any other expired one is
     * deleted and the lookup fails.
     */
    method GetSession(sessionId: string, now: int, refreshed: Option<Token>) returns (outcome: Outcome)
      modifies this
      ensures outcome == LookupOutcome(old(bucket), sessionId, now, refreshed)
      ensures outcome.Found? || outcome == Failed(NotFound) || outcome == Failed(BadEntry) ==>
        bucket == old(bucket)
      ensures outcome == Failed(Expired) ==> bucket == old(bucket) - {sessionId}
      ensures outcome.LookUpAgain? ==>
        bucket == old(bucket)[sessionId := Stored(WithNewToken(old(bucket)[sessionId].session, refreshed.value, now))]
      ensures WellKeyed(old(bucket)) ==> WellKeyed(bucket)
    {
      if sessionId !in bucket {
        return Failed(NotFound);
      }
      var entry := bucket[sessionId];
      if entry.Undecodable? {
        return Failed(BadEntry);
      }
      var session := entry.session;
      if IsExpired(session, now) {
        if session.token.refreshToken != "" {
          if refreshed.Some? {
            var err := UpdateSession(sessionId, refreshed.value, now);
            if err.None? {
              return LookUpAgain;
            }
          }
        }
        DeleteSession(sessionId);
        return Failed(Expired);
      }
      outcome := Found(session);
    }

    /**
     * `CleanupExpiredSessions`: a first pass over the bucket collects the id of every
     * expired session that decodes, in the bucket's iteration order; a second pass deletes
     * each id collected.
     */
    method CleanupExpiredSessions(now: int)
      modifies this
      ensures bucket == old(bucket) - ExpiredIds(old(bucket), now)
      ensures WellKeyed(old(bucket)) ==> WellKeyed(bucket)
    {
      var expiredSessionIds: seq<string> := [];
      var remaining := bucket.Keys;
      while remaining != {}
        invariant remaining <= bucket.Keys
        invariant forall id :: id in expiredSessionIds <==>
          exists k :: k in bucket && k !in remaining && ExpiredEntry(bucket[k], now) && bucket[k].session.id == id
        decreases remaining
      {
        var k :| k in remaining;
        var entry := bucket[k];
        if entry.Stored? && IsExpired(entry.session, now) {
          expiredSessionIds := expiredSessionIds + [entry.session.id];
        }
        remaining := remaining - {k};
      }
      assert forall id :: id in expiredSessionIds <==> id in ExpiredIds(bucket, now);
      for i := 0 to |expiredSessionIds|
        invariant bucket == old(bucket) - (set j | 0 <= j < i :: expiredSessionIds[j])
      {
        bucket := bucket - {expiredSessionIds[i]};
      }
      assert (set j | 0 <= j < |expiredSessionIds| :: expiredSessionIds[j]) == ExpiredIds(old(bucket), now);
    }
  }
}
