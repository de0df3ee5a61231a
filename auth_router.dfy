/**
 * src/api/auth/router.py: the logout handler, which works on the session
 * store directly, and the session lifecycle as a client strings the
 * handlers together.
 */
module AuthRouter {
  import opened Exceptions
  import opened PyInt
  import opened JwtService
  import opened Schemes
  import opened Http
  import opened AuthService
  import SessionStore

  const LoggedOut := "Вы вышли из аккаунта"

  /** Both session cookies, deleted. */
  function ClearedCookies(): (c: ResponseCookies)
    ensures c.Keys == {"access_token", "refresh_token"}
    ensures forall name :: name in c ==> c[name] == Cleared
  {
    map["access_token" := Cleared, "refresh_token" := Cleared]
  }

  /**
   * logout: deletes the session of the presented refresh token, if any, and
   * clears both cookies. It needs no authenticated user and cannot fail.
   */
  method Logout(redis: SessionStore.SessionStore, cookies: RequestCookies) returns (resp: ResponseCookies, message: string)
    requires redis.Valid()
    modifies redis
    ensures redis.Valid()
    ensures Presented(cookies, "refresh_token").Some? ==>
              var key := SessionKey(Presented(cookies, "refresh_token").value);
              redis.entries == old(redis.entries) - {key} && redis.ttl == old(redis.ttl) - {key}
    ensures Presented(cookies, "refresh_token").None? ==> unchanged(redis)
    ensures resp == ClearedCookies() && message == LoggedOut
  {
    var refresh := Presented(cookies, "refresh_token");
    if refresh.Some? {
      var removed := redis.Delete(SessionKey(refresh.value));
    }
    resp := ClearedCookies();
    message := LoggedOut;
  }

  /** Logging out twice with the same cookies leaves the store as logging out once. */
  method LogoutTwice(redis: SessionStore.SessionStore, cookies: RequestCookies)
    requires redis.Valid()
    modifies redis
    ensures redis.Valid()
    ensures Presented(cookies, "refresh_token").Some? ==>
              var key := SessionKey(Presented(cookies, "refresh_token").value);
              redis.entries == old(redis.entries) - {key} && redis.ttl == old(redis.ttl) - {key}
    ensures Presented(cookies, "refresh_token").None? ==> unchanged(redis)
  {
    var resp1, message1 := Logout(redis, cookies);
    var resp2, message2 := Logout(redis, cookies);
  }

  /** After logout the presented refresh token no longer rotates, at any later time. */
  method RefreshAfterLogout(svc: AuthService, cookies: RequestCookies, later: int)
      returns (r: Result<UserResponse>)
    requires svc.Valid()
    modifies svc.redis
    ensures svc.Valid()
    ensures r.Err? && StatusCode(r.error) == 401
  {
    var resp, message := Logout(svc.redis, cookies);
    var cookiesOut;
    r, cookiesOut := svc.RefreshToken(cookies, later);
  }

  /**
   * A refresh token that rotated into a different token is rejected when
   * it is presented again, whatever the time.
   */
  method ReplayIsRejected(svc: AuthService, cookies: RequestCookies, now: int, later: int)
      returns (first: Result<UserResponse>, second: Result<UserResponse>)
    requires svc.Valid()
    modifies svc.redis
    ensures svc.Valid()
    ensures first.Ok? && "refresh_token" in cookies && cookies["refresh_token"] != IssuedRefreshToken(svc.cfg, first.value.id, now) ==>
              second == Err(InvalidCredentialsException(SessionInvalid))
  {
    var resp1, resp2;
    first, resp1 := svc.RefreshToken(cookies, now);
    second, resp2 := svc.RefreshToken(cookies, later);
  }

  /**
   * Deterministic tokens with whole-second expiry: a refresh in the second
   * the presented token was minted re-mints that very token and stores it
   * again, so the token it was meant to spend goes on working.
   */
  method SameSecondReplay(svc: AuthService, data: LoginRequest, now: int)
      returns (login: Result<UserResponse>, first: Result<UserResponse>, second: Result<UserResponse>)
    requires svc.Valid()
    modifies svc.redis
    ensures svc.Valid()
    ensures login.Ok? ==> first.Ok? && second.Ok? && first == login && second == login
  {
    var resp;
    login, resp := svc.Login(data, now);
    if login.Err? {
      first, second := login, login;
      return;
    }
    var id := login.value.id;
    SessionCookieOpensSession(svc.cfg, id, now);
    var cookies := map["refresh_token" := resp["refresh_token"].value];
    TenDigitsRoundTrip(id);
    var resp1, resp2;
    first, resp1 := svc.RefreshToken(cookies, now);
    second, resp2 := svc.RefreshToken(cookies, now);
  }
}
