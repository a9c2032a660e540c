/**
  The session manager of src/lib/auth.ts: the shared-password check and the
  process-wide session table, a map from the SHA-256 digest of a bearer token
  to the session's expiry time in milliseconds since the epoch.

  The digest function, the random token and the clock are not computed here:
  the digest is fixed when the store is constructed, the token and the current
  time are parameters of the operations.
*/
module Auth {
  import opened Text
  import Utf8

  /** SESSION_DURATION_MS: seven days. */
  const SessionDurationMs: int := 7 * 24 * 60 * 60 * 1000

  // ---------------------------------------------------------------------------
  // Password check

  /** `timingSafeEqual` on two buffers of the same length: every byte pair is
      compared, so the answer is byte-wise equality. */
  function TimingSafeEqual(a: seq<Utf8.byte>, b: seq<Utf8.byte>): (r: bool)
    requires |a| == |b|
    ensures r <==> a == b
  {
    forall i :: 0 <= i < |a| ==> a[i] == b[i]
  }

  /** `validatePassword`: rejects everything while no administrator password is
      configured (absent or empty), rejects a candidate whose UTF-8 encoding has
      a different length, and otherwise compares the encodings. Because UTF-8
      is injective, this accepts exactly the configured password. */
  function ValidatePassword(password: string, adminPassword: Option<string>): (ok: bool)
    ensures !Truthy(adminPassword) ==> !ok
    ensures (Truthy(adminPassword)
             && |Utf8.Encode(password)| != |Utf8.Encode(adminPassword.value)|) ==> !ok
    ensures ok <==> Truthy(adminPassword) && password == adminPassword.value
  {
    if !Truthy(adminPassword) then false
    else
      var input := Utf8.Encode(password);
      var stored := Utf8.Encode(adminPassword.value);
      Utf8.EncodeEqualIff(password, adminPassword.value);
      if |input| != |stored| then false
      else TimingSafeEqual(input, stored)
  }

  // ---------------------------------------------------------------------------
  // The session table as a value

  /** Token digest to expiry time. */
  type Table = map<string, int>

  /** A session is valid at `now` when it exists and its expiry is not before `now`. */
  predicate Live(t: Table, h: string, now: int) {
    h in t && t[h] >= now
  }

  /** No session under `h` is valid at `since` or at any later time. */
  predicate Revoked(t: Table, h: string, since: int) {
    h !in t || t[h] < since
  }

  /** The sweep of `createSession`: drops every entry that expired before `now`. */
  function Swept(t: Table, now: int): (r: Table)
    ensures forall h :: h in r ==> h in t && r[h] == t[h] && r[h] >= now
    ensures forall h :: Live(t, h, now) ==> h in r
  {
    map h | h in t && t[h] >= now :: t[h]
  }

  /** The table after `createSession` stored digest `h` at time `now`: `h`
      expires seven days from now, every other entry stays exactly when it is
      live at `now`, unchanged, and nothing in the table has expired. */
  function Created(t: Table, h: string, now: int): (r: Table)
    ensures h in r && r[h] == now + SessionDurationMs
    ensures forall k :: k != h ==> (k in r <==> Live(t, k, now))
    ensures forall k :: k in r && k != h ==> k in t && r[k] == t[k]
    ensures forall k :: k in r ==> r[k] >= now
  {
    Swept(t[h := now + SessionDurationMs], now)
  }

  /** The table after `isValidSession` looked up digest `h` at time `now`:
      an expired entry is evicted, anything else is left alone. */
  function AfterCheck(t: Table, h: string, now: int): (r: Table)
    ensures h in r <==> h in t && t[h] >= now
    ensures forall k :: k != h ==> (k in r <==> k in t)
    ensures forall k :: k in r ==> k in t && r[k] == t[k]
  {
    if h in t && t[h] < now then t - {h} else t
  }

  /** The table after `destroySession` removed digest `h`: `h` is gone and
      every other entry is untouched. */
  function Destroyed(t: Table, h: string): (r: Table)
    ensures h !in r
    ensures forall k :: k != h ==> (k in r <==> k in t)
    ensures forall k :: k in r ==> r[k] == t[k]
  {
    t - {h}
  }

  // ---------------------------------------------------------------------------
  // The store

  class SessionStore {
    /** `hashToken`: the one-way digest under which a token is stored. */
    const hashToken: string -> string
    /** The `sessions` map. */
    var sessions: Table

    constructor (hashToken: string -> string)
      ensures this.hashToken == hashToken
      ensures sessions == map[]
    {
      this.hashToken := hashToken;
      sessions := map[];
    }

    /** `createSession`: `token` stands for the 32 random bytes in hex the source
        draws. Stores the token's digest with expiry `now + SESSION_DURATION_MS`,
        then walks the whole table and deletes every entry that expired before `now`. */
    method CreateSession(token: string, now: int) returns (issued: string)
      modifies this
      ensures issued == token
      ensures sessions == Created(old(sessions), hashToken(token), now)
      ensures hashToken(token) in sessions
      ensures sessions[hashToken(token)] == now + SessionDurationMs
      ensures forall h :: h in sessions ==> sessions[h] >= now
      ensures forall h :: h != hashToken(token) && Live(old(sessions), h, now) ==>
                h in sessions && sessions[h] == old(sessions)[h]
    {
      var hashed := hashToken(token);
      sessions := sessions[hashed := now + SessionDurationMs];
      ghost var inserted := sessions;
      var pending := sessions.Keys;
      while pending != {}
        invariant pending <= inserted.Keys
        invariant sessions == map h | h in inserted && (h in pending || inserted[h] >= now) :: inserted[h]
        decreases pending
      {
        var h :| h in pending;
        if sessions[h] < now {
          sessions := sessions - {h};
        }
        pending := pending - {h};
      }
      issued := token;
    }

    /** `isValidSession`: true when the digest is present and not expired; an
        entry found expired is deleted on the way (lazy eviction). */
    method IsValidSession(token: string, now: int) returns (valid: bool)
      modifies this
      ensures valid <==> Live(old(sessions), hashToken(token), now)
      ensures sessions == AfterCheck(old(sessions), hashToken(token), now)
    {
      var hashed := hashToken(token);
      if hashed !in sessions {
        return false;
      }
      if sessions[hashed] < now {
        sessions := sessions - {hashed};
        return false;
      }
      return true;
    }

    /** `destroySession`: deletes the token's digest, whether or not it is present. */
    method DestroySession(token: string)
      modifies this
      ensures sessions == Destroyed(old(sessions), hashToken(token))
    {
      sessions := sessions - {hashToken(token)};
    }

    /** `isAuthenticated`: the session cookie must carry a non-empty value that
        `isValidSession` accepts. */
    method IsAuthenticated(cookie: Option<string>, now: int) returns (ok: bool)
      modifies this
      ensures ok <==> Truthy(cookie) && Live(old(sessions), hashToken(cookie.value), now)
      ensures sessions == if Truthy(cookie) then AfterCheck(old(sessions), hashToken(cookie.value), now)
                          else old(sessions)
    {
      if !Truthy(cookie) {
        return false;
      }
      ok := IsValidSession(cookie.value, now);
    }
  }

  // ---------------------------------------------------------------------------
  // Properties of the table operations

  /** Lazy eviction is unobservable: after a lookup at `now`, every session is
      valid at every time from `now` on exactly when it was before. */
  lemma EvictionIsUnobservable(t: Table, h: string, now: int, k: string, later: int)
    requires later >= now
    ensures Live(AfterCheck(t, h, now), k, later) <==> Live(t, k, later)
  {
  }

  /** Likewise the sweep: it deletes only sessions that no later lookup could accept. */
  lemma SweepIsUnobservable(t: Table, now: int, k: string, later: int)
    requires later >= now
    ensures Live(Swept(t, now), k, later) <==> Live(t, k, later)
  {
  }

  /** A freshly created token is accepted at every time up to seven days later,
      and rejected from then on. */
  lemma CreatedSessionLifetime(t: Table, h: string, now: int, later: int)
    requires later >= now
    ensures Live(Created(t, h, now), h, later) <==> later <= now + SessionDurationMs
    ensures Revoked(Created(t, h, now), h, now + SessionDurationMs + 1)
  {
  }

  /** Destroying twice is destroying once, and the destroyed token is revoked for good. */
  lemma DestroyIdempotent(t: Table, h: string, since: int)
    ensures Destroyed(Destroyed(t, h), h) == Destroyed(t, h)
    ensures Revoked(Destroyed(t, h), h, since)
  {
  }

  /** The operations of the store, as a client drives them. */
  datatype SessionEvent =
    | Create(token: string, at: int)
    | Check(token: string, at: int)
    | Destroy(token: string)

  function Step(t: Table, e: SessionEvent, hash: string -> string): Table {
    match e
    case Create(token, at) => Created(t, hash(token), at)
    case Check(token, at) => AfterCheck(t, hash(token), at)
    case Destroy(token) => Destroyed(t, hash(token))
  }

  function Replay(t: Table, events: seq<SessionEvent>, hash: string -> string): Table
    decreases |events|
  {
    if events == [] then t else Replay(Step(t, events[0], hash), events[1..], hash)
  }

  /** Revocation is permanent: once a digest has no session valid from `since`
      on (it was destroyed, or it expired), no sequence of creations of other
      tokens, lookups and destructions makes it valid again. */
  lemma {:induction false} RevokedStaysRevoked(
    t: Table, events: seq<SessionEvent>, hash: string -> string, h: string, since: int)
    requires Revoked(t, h, since)
    requires forall i :: 0 <= i < |events| && events[i].Create? ==> hash(events[i].token) != h
    ensures Revoked(Replay(t, events, hash), h, since)
    decreases |events|
  {
    if events != [] {
      var next := Step(t, events[0], hash);
      assert Revoked(next, h, since);
      RevokedStaysRevoked(next, events[1..], hash, h, since);
    }
  }

  /** A destroyed token is never accepted again, whatever other tokens are
      created, checked or destroyed meanwhile. */
  lemma {:induction false} DestroyedTokenNeverValid(
    t: Table, token: string, events: seq<SessionEvent>, hash: string -> string, later: int)
    requires forall i :: 0 <= i < |events| && events[i].Create? ==> hash(events[i].token) != hash(token)
    ensures !Live(Replay(Destroyed(t, hash(token)), events, hash), hash(token), later)
  {
    RevokedStaysRevoked(Destroyed(t, hash(token)), events, hash, hash(token), later);
  }

  /** The other half of that property: once seven days have passed since the
      token was created, no later event revives it. */
  lemma {:induction false} ExpiredTokenNeverValid(
    t: Table, token: string, now: int, events: seq<SessionEvent>, hash: string -> string, later: int)
    requires forall i :: 0 <= i < |events| && events[i].Create? ==> hash(events[i].token) != hash(token)
    requires later > now + SessionDurationMs
    ensures !Live(Replay(Created(t, hash(token), now), events, hash), hash(token), later)
  {
    CreatedSessionLifetime(t, hash(token), now, now);
    RevokedStaysRevoked(Created(t, hash(token), now), events, hash, hash(token), now + SessionDurationMs + 1);
  }
}
