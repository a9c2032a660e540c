/**
  The authentication endpoint of src/app/api/auth/route.ts: the status each of
  its three handlers answers with, the session-cookie it sets, and what it does
  to the session table. Request and response objects are reduced to the parts
  the handlers look at: the JSON body's `password` field and the session cookie.
*/
module AuthRoute {
  import opened Text
  import opened Auth

  /** The `password` member of a parsed JSON body. */
  datatype PasswordField =
    | Missing                 // absent, null, false, 0, ...
    | NotAString              // any other value whose type is not string
    | Given(s: string)

  /** The request body: JSON that cannot be destructured (not JSON at all, or
      `null`) makes the handler throw. */
  datatype AuthBody = Unparseable | JsonBody(password: PasswordField)

  /** A `Set-Cookie` of the session cookie. */
  datatype Cookie = Cookie(value: string, maxAgeSeconds: int)

  datatype AuthResponse = AuthResponse(status: int, setCookie: Option<Cookie>)

  /** `Math.floor(getSessionDurationMs() / 1000)`. */
  const CookieMaxAgeSeconds: int := SessionDurationMs / 1000

  /** The password a body supplies, if it is a non-empty string: an
      unparseable body, a missing or non-string password and the empty string
      all supply none. */
  function SuppliedPassword(body: AuthBody): (r: Option<string>)
    ensures r.Some? ==> r.value != "" && body == JsonBody(Given(r.value))
    ensures body.Unparseable? ==> r.None?
    ensures body.JsonBody? && !body.password.Given? ==> r.None?
    ensures body.JsonBody? && body.password.Given? && body.password.s != "" ==> r == Some(body.password.s)
  {
    if body.JsonBody? && body.password.Given? && body.password.s != "" then Some(body.password.s)
    else None
  }

  /** `POST /api/auth`: 400 without a usable password, 401 for a wrong one (the
      table is untouched in both cases), and otherwise one new session and a
      cookie holding the raw token for the session's lifetime in seconds. */
  method Post(store: SessionStore, body: AuthBody, adminPassword: Option<string>,
              token: string, now: int) returns (r: AuthResponse)
    modifies store
    ensures SuppliedPassword(body).None? ==>
              r == AuthResponse(400, None) && store.sessions == old(store.sessions)
    ensures SuppliedPassword(body).Some? && !ValidatePassword(SuppliedPassword(body).value, adminPassword) ==>
              r == AuthResponse(401, None) && store.sessions == old(store.sessions)
    ensures SuppliedPassword(body).Some? && ValidatePassword(SuppliedPassword(body).value, adminPassword) ==>
              && r == AuthResponse(200, Some(Cookie(token, 604800)))
              && store.sessions == Created(old(store.sessions), store.hashToken(token), now)
    ensures r.status == 200 <==> Truthy(adminPassword) && SuppliedPassword(body) == adminPassword
  {
    if body.Unparseable? {
      return AuthResponse(400, None);
    }
    var password := body.password;
    if !password.Given? || password.s == "" {
      return AuthResponse(400, None);
    }
    if !ValidatePassword(password.s, adminPassword) {
      return AuthResponse(401, None);
    }
    var issued := store.CreateSession(token, now);
    r := AuthResponse(200, Some(Cookie(issued, CookieMaxAgeSeconds)));
  }

  /** `GET /api/auth`: 200 exactly when the cookie carries a token whose session
      is valid now; the lookup may evict that session if it has expired. */
  method Get(store: SessionStore, cookie: Option<string>, now: int) returns (status: int)
    modifies store
    ensures status == 200 || status == 401
    ensures status == 200 <==> Truthy(cookie) && Live(old(store.sessions), store.hashToken(cookie.value), now)
    ensures store.sessions == if Truthy(cookie) then AfterCheck(old(store.sessions), store.hashToken(cookie.value), now)
                              else old(store.sessions)
  {
    var token := cookie;
    if !Truthy(token) {
      return 401;
    }
    var valid := store.IsValidSession(token.value, now);
    status := if valid then 200 else 401;
  }

  /** `DELETE /api/auth`: always 200 with the cookie cleared (empty value,
      max-age 0); the session is destroyed only when a token was presented. */
  method Delete(store: SessionStore, cookie: Option<string>) returns (r: AuthResponse)
    modifies store
    ensures r == AuthResponse(200, Some(Cookie("", 0)))
    ensures store.sessions == if Truthy(cookie) then Destroyed(old(store.sessions), store.hashToken(cookie.value))
                              else old(store.sessions)
  {
    if Truthy(cookie) {
      store.DestroySession(cookie.value);
    }
    r := AuthResponse(200, Some(Cookie("", 0)));
  }
}
