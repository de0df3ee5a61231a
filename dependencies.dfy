/**
 * src/di/dependencies.py: the access guard every protected route depends
 * on, and the admin role check layered on it. Both only read.
 */
module Dependencies {
  import opened Wrappers
  import opened Exceptions
  import opened PyInt
  import opened JwtService
  import opened UserModel
  import opened Http
  import UserRepository

  /**
   * The id a token names: it decodes, at `now`, to an access payload whose
   * `sub` reads as an integer. Every other token is an invalid one.
   */
  function NamedId(token: string, now: int): (r: Option<int>)
    ensures r.Some? ==> DecodeToken(token, now).Some?
                        && DecodeToken(token, now).value.tokenType == Some("access")
                        && DecodeToken(token, now).value.sub.Some?
                        && ParseInt(DecodeToken(token, now).value.sub.value) == r
  {
    match DecodeToken(token, now)
    case None => None
    case Some(payload) =>
      if payload.tokenType != Some("access") || payload.sub.None? then None
      else ParseInt(payload.sub.value)
  }

  /**
   * The tail of get_current_user: the stored, active user with that id.
   * The driver refuses an id outside the INTEGER range.
   */
  function ActiveUserWithId(repo: UserRepository.UserRepository, userId: int): (r: Result<User>)
    requires repo.Valid()
    reads repo
    ensures r.Ok? ==> r.value.id == userId
    ensures !InIntegerRange(userId) ==> r == Err(IdOutOfRange)
    ensures InIntegerRange(userId) ==>
              r == if userId in repo.users && repo.users[userId].isActive then Ok(repo.users[userId])
                   else Err(InvalidCredentialsException("User not found or inactive"))
  {
    match repo.FindById(userId)
    case Err(e) => Err(e)
    case Ok(None) => Err(InvalidCredentialsException("User not found or inactive"))
    case Ok(Some(user)) =>
      if !user.isActive then Err(InvalidCredentialsException("User not found or inactive"))
      else Ok(user)
  }

  /**
   * get_current_user: the active user named by the `sub` of a live access
   * token in the `access_token` cookie. Every failure is a 401, except a
   * `sub` that reads as an id the `id` column cannot hold, which the
   * driver refuses with a DataError.
   */
  function GetCurrentUser(repo: UserRepository.UserRepository, cookies: RequestCookies, now: int): (r: Result<User>)
    requires repo.Valid()
    reads repo
    ensures r.Err? ==> r.error.InvalidCredentials? || r.error == IdOutOfRange
    ensures Presented(cookies, "access_token").None? ==> r == Err(InvalidCredentialsException("Not authenticated"))
    ensures Presented(cookies, "access_token").Some? && NamedId(Presented(cookies, "access_token").value, now).None?
            ==> r == Err(InvalidCredentialsException("Invalid token"))
    ensures r == Err(IdOutOfRange) ==>
              && Presented(cookies, "access_token").Some?
              && NamedId(Presented(cookies, "access_token").value, now).Some?
              && !InIntegerRange(NamedId(Presented(cookies, "access_token").value, now).value)
    ensures r.Ok? ==> r.value.id in repo.users && repo.users[r.value.id] == r.value && r.value.isActive
    ensures r.Ok? ==> "access_token" in cookies && NamedId(cookies["access_token"], now) == Some(r.value.id)
  {
    match Presented(cookies, "access_token")
    case None => Err(InvalidCredentialsException("Not authenticated"))
    case Some(token) =>
      match NamedId(token, now)
      case None => Err(InvalidCredentialsException("Invalid token"))
      case Some(userId) => ActiveUserWithId(repo, userId)
  }

  /**
   * Once the cookie decodes to a live access payload naming a user, the
   * guard admits exactly that user, and only while the account exists and
   * is active. An id too long for `int()` is an invalid token, and one
   * outside the INTEGER range the driver's DataError.
   */
  lemma AdmitsTheUserNamed(repo: UserRepository.UserRepository, cookies: RequestCookies,
                           now: int, userId: int, exp: int)
    requires repo.Valid()
    requires Presented(cookies, "access_token").Some?
    requires DecodeToken(Presented(cookies, "access_token").value, now)
             == Some(Claims(Some(IntToString(userId)), exp, Some("access")))
    ensures GetCurrentUser(repo, cookies, now)
            == if !WithinDigitLimit(userId) then Err(InvalidCredentialsException("Invalid token"))
               else if !InIntegerRange(userId) then Err(IdOutOfRange)
               else if userId in repo.users && repo.users[userId].isActive then Ok(repo.users[userId])
               else Err(InvalidCredentialsException("User not found or inactive"))
  {
    var token := Presented(cookies, "access_token").value;
    var payload := DecodeToken(token, now).value;
    assert Presented(cookies, "access_token") == Some(token);
    assert payload.tokenType == Some("access") && payload.sub == Some(IntToString(userId));
    ParseIntToString(userId);
    if WithinDigitLimit(userId) {
      assert NamedId(token, now) == Some(userId);
      assert GetCurrentUser(repo, cookies, now) == ActiveUserWithId(repo, userId);
    } else {
      assert NamedId(token, now).None?;
    }
  }

  /** A cookie that does not decode at `now` is turned away as an invalid token. */
  lemma UndecodableIsRejected(repo: UserRepository.UserRepository, cookies: RequestCookies, now: int)
    requires repo.Valid()
    requires Presented(cookies, "access_token").Some?
    requires DecodeToken(Presented(cookies, "access_token").value, now).None?
    ensures GetCurrentUser(repo, cookies, now) == Err(InvalidCredentialsException("Invalid token"))
  {
  }

  /**
   * An access token the codec minted for a user, expiring at `exp`, lets
   * exactly that user in while it is live and the account exists and is
   * active. `CreateAccessToken` mints such a token with exp = now +
   * access_token_expire_minutes · 60, for the id of a stored row.
   */
  lemma AccessTokenAdmitsItsUser(repo: UserRepository.UserRepository, cookies: RequestCookies,
                                 userId: int, exp: int, now: int)
    requires repo.Valid()
    requires "access_token" in cookies
    requires cookies["access_token"] == Encode(Claims(Some(IntToString(userId)), exp, Some("access")))
    ensures GetCurrentUser(repo, cookies, now)
            == if now >= exp || !WithinDigitLimit(userId) then Err(InvalidCredentialsException("Invalid token"))
               else if !InIntegerRange(userId) then Err(IdOutOfRange)
               else if userId in repo.users && repo.users[userId].isActive then Ok(repo.users[userId])
               else Err(InvalidCredentialsException("User not found or inactive"))
  {
    DecodeEncoded(Claims(Some(IntToString(userId)), exp, Some("access")), now);
    assert Presented(cookies, "access_token") == Some(cookies["access_token"]);
    if now < exp {
      AdmitsTheUserNamed(repo, cookies, now, userId, exp);
    } else {
      UndecodableIsRejected(repo, cookies, now);
    }
  }

  /** A refresh token is never accepted where an access token is expected, at any time, for any user. */
  lemma RefreshTokenIsNotAccess(repo: UserRepository.UserRepository, cookies: RequestCookies,
                                cfg: Config, userId: int, issued: int, now: int)
    requires repo.Valid()
    requires "access_token" in cookies
    requires cookies["access_token"] == CreateRefreshToken(cfg, userId, issued).0
    ensures GetCurrentUser(repo, cookies, now) == Err(InvalidCredentialsException("Invalid token"))
  {
    DecodeEncoded(RefreshClaims(cfg, userId, issued), now);
  }

  /** require_admin: the same user when its role is "admin", a 403 otherwise. */
  function RequireAdmin(user: User): (r: Result<User>)
    ensures r.Ok? <==> user.role == "admin"
    ensures r.Ok? ==> r.value == user
    ensures r.Err? ==> StatusCode(r.error) == 403 && r.error == Forbidden("Admin access required")
  {
    if user.role != "admin" then Err(Forbidden("Admin access required")) else Ok(user)
  }

  /** `Depends(require_admin)`: the guard chain with the role check on top. */
  function CurrentAdmin(repo: UserRepository.UserRepository, cookies: RequestCookies, now: int): (r: Result<User>)
    requires repo.Valid()
    reads repo
    ensures r.Ok? <==> GetCurrentUser(repo, cookies, now).Ok? && GetCurrentUser(repo, cookies, now).value.role == "admin"
    ensures GetCurrentUser(repo, cookies, now).Err? ==> r == GetCurrentUser(repo, cookies, now)
    ensures r.Ok? ==> r == GetCurrentUser(repo, cookies, now)
  {
    match GetCurrentUser(repo, cookies, now)
    case Err(e) => Err(e)
    case Ok(user) => RequireAdmin(user)
  }
}
