/**
 * src/services/auth_service.py: login, registration, profile update, soft
 * delete and refresh-token rotation. A refresh session is the store entry
 * `refresh:<token>` whose value is the decimal user id; it lives as long as
 * the refresh token does. The clock is the parameter `now`.
 */
module AuthService {
  import opened Wrappers
  import opened Exceptions
  import opened PyInt
  import opened JwtService
  import opened UserModel
  import opened Schemes
  import opened Http
  import UserRepository
  import SessionStore

  const NoRefreshCookie := "Нет refresh токена в cookie"
  const SessionInvalid := "Refresh недействителен или истёк"
  const SessionCorrupt := "Повреждённые данные в Redis"
  const SessionUserGone := "Пользователь не найден / заблокирован"
  const AccountDeleted := "User account deleted successfully"

  /** The store key of the session a refresh token opens. */
  function SessionKey(token: string): (key: string)
    ensures |key| == |"refresh:"| + |token|
    ensures key[..|"refresh:"|] == "refresh:" && key[|"refresh:"|..] == token
  {
    "refresh:" + token
  }

  /** Distinct tokens open distinct sessions. */
  lemma SessionKeyInjective(t1: string, t2: string)
    ensures SessionKey(t1) == SessionKey(t2) <==> t1 == t2
  {
    if SessionKey(t1) == SessionKey(t2) {
      assert t1 == SessionKey(t1)[|"refresh:"|..];
    }
  }

  /** The refresh token minted for `userId` at `now`. */
  function IssuedRefreshToken(cfg: Config, userId: int, now: int): string
  {
    CreateRefreshToken(cfg, userId, now).0
  }

  /** The two httponly cookies a new session sets, with the lifetimes of their tokens. */
  function SessionCookies(cfg: Config, userId: int, now: int): ResponseCookies
  {
    map["access_token" := Cookie(CreateAccessToken(cfg, userId, now), AccessTtl(cfg)),
        "refresh_token" := Cookie(IssuedRefreshToken(cfg, userId, now), RefreshTtl(cfg))]
  }

  /** The refresh session started for `userId` at `now` is found under its cookie's token. */
  lemma SessionCookieOpensSession(cfg: Config, userId: int, now: int)
    ensures "refresh_token" in SessionCookies(cfg, userId, now)
    ensures var t := SessionCookies(cfg, userId, now)["refresh_token"].value;
            && Presented(map["refresh_token" := t], "refresh_token") == Some(t)
            && t == IssuedRefreshToken(cfg, userId, now)
  {
    var t := IssuedRefreshToken(cfg, userId, now);
    assert t == Encode(RefreshClaims(cfg, userId, now));
  }

  /** The dictionary register hands to `add`. */
  function RegistrationRow(data: Registration, hashPassword: string): map<Column, Value>
  {
    map[FirstName := Str(data.firstName), LastName := Str(data.lastName),
        Email := Str(data.email), HashPassword := Str(hashPassword)]
  }

  /**
   * A valid registration always fits the table, so its INSERT can only be
   * refused for an email already on file; the row gets the defaults.
   */
  lemma RegistrationRowFits(data: Registration, hashPassword: string, id: int)
    requires ValidRegistration(data)
    ensures AllFit(RegistrationRow(data, hashPassword))
    ensures var d := RegistrationRow(data, hashPassword);
            Email in d && FirstName in d && LastName in d && HashPassword in d && d[Email] == Str(data.email)
    ensures DropNone(RegistrationRow(data, hashPassword)) == RegistrationRow(data, hashPassword)
    ensures var u := NewRow(id, RegistrationRow(data, hashPassword));
            && u == User(id, data.email, data.firstName, data.lastName, hashPassword, DefaultIsActive, DefaultRole)
  {
    var d := RegistrationRow(data, hashPassword);
    forall c | c in d ensures Fits(c, d[c]) {
    }
  }

  /** update_profile's pre-check: a new, non-empty email that another row already holds. */
  predicate EmailChangeConflicts(users: map<int, User>, user: User, data: UpdateUser)
  {
    data.email.Some? && data.email.value != "" && data.email.value != user.email
    && EmailTaken(users, data.email.value)
  }

  class AuthService {
    const repo: UserRepository.UserRepository
    const redis: SessionStore.SessionStore
    const cfg: Config

    ghost predicate Valid()
      reads this, repo, redis
    {
      repo.Valid() && redis.Valid() && ValidConfig(cfg)
    }

    constructor (repo: UserRepository.UserRepository, redis: SessionStore.SessionStore, cfg: Config)
      requires repo.Valid() && redis.Valid() && ValidConfig(cfg)
      ensures Valid()
      ensures this.repo == repo && this.redis == redis && this.cfg == cfg
    {
      this.repo := repo;
      this.redis := redis;
      this.cfg := cfg;
    }

    /** The shared tail of login, register and refresh: mint both tokens, store the session, set the cookies. */
    method StartSession(userId: int, now: int) returns (resp: ResponseCookies)
      requires Valid()
      modifies redis
      ensures Valid()
      ensures redis.entries == old(redis.entries)[SessionKey(IssuedRefreshToken(cfg, userId, now)) := IntToString(userId)]
      ensures redis.ttl == old(redis.ttl)[SessionKey(IssuedRefreshToken(cfg, userId, now)) := RefreshTtl(cfg)]
      ensures resp == SessionCookies(cfg, userId, now)
    {
      var access := CreateAccessToken(cfg, userId, now);
      var (refresh, ttlSeconds) := CreateRefreshToken(cfg, userId, now);
      redis.Set(SessionKey(refresh), IntToString(userId), ttlSeconds);
      var accessMaxAge := cfg.accessTokenExpireMinutes * 60;
      resp := map["access_token" := Cookie(access, accessMaxAge), "refresh_token" := Cookie(refresh, ttlSeconds)];
    }

    /**
     * login: the user with that email, when the password verifies and the
     * account is active, with a new session; each failure is its own error
     * and touches nothing.
     */
    method Login(data: LoginRequest, now: int) returns (r: Result<UserResponse>, resp: ResponseCookies)
      requires Valid()
      modifies redis
      ensures Valid()
      ensures r.Err? ==> resp == map[] && unchanged(redis)
      ensures !EmailTaken(repo.users, data.email) ==> r == Err(NotFoundException("User not found by email"))
      ensures EmailTaken(repo.users, data.email) ==>
                var u := UserWithEmail(repo.users, data.email);
                && (!VerifyPassword(data.password, u.hashPassword) ==>
                      r == Err(InvalidCredentialsException("Wrong password")))
                && (VerifyPassword(data.password, u.hashPassword) && !u.isActive ==>
                      r == Err(InvalidCredentialsException("User account is disabled")))
                && (VerifyPassword(data.password, u.hashPassword) && u.isActive ==>
                      && r == Ok(ToResponse(u))
                      && redis.entries == old(redis.entries)[SessionKey(IssuedRefreshToken(cfg, u.id, now)) := IntToString(u.id)]
                      && redis.ttl == old(redis.ttl)[SessionKey(IssuedRefreshToken(cfg, u.id, now)) := RefreshTtl(cfg)]
                      && resp == SessionCookies(cfg, u.id, now))
    {
      var found := repo.FindOneOrNone(map[Email := Str(data.email)]);
      if found.None? {
        if EmailTaken(repo.users, data.email) {
          var id :| id in repo.users && repo.users[id].email == data.email;
          MatchesEmail(repo.users[id], data.email);
        }
        return Err(NotFoundException("User not found by email")), map[];
      }
      var user := found.value;
      MatchesEmail(user, data.email);
      UserWithEmailIsUnique(repo.users, user);
      if !VerifyPassword(data.password, user.hashPassword) {
        return Err(InvalidCredentialsException("Wrong password")), map[];
      }
      if !user.isActive {
        return Err(InvalidCredentialsException("User account is disabled")), map[];
      }
      resp := StartSession(user.id, now);
      r := Ok(ToResponse(user));
    }

    /**
     * register: a new row with the hashed password and the column defaults,
     * signed in at once; an email already on file is refused, and so is
     * every registration once the id sequence is spent.
     */
    method Register(data: Registration, salt: string, now: int) returns (r: Result<UserResponse>, resp: ResponseCookies)
      requires Valid() && ValidRegistration(data)
      modifies repo, redis
      ensures Valid()
      ensures EmailTaken(old(repo.users), data.email) ==>
                && r == Err(AlreadyExistsException("Email already registered")) && resp == map[]
                && unchanged(repo) && unchanged(redis)
      ensures !EmailTaken(old(repo.users), data.email) && !InIntegerRange(old(repo.nextId)) ==>
                && r == Err(SequenceExhausted) && resp == map[]
                && repo.users == old(repo.users) && repo.nextId == old(repo.nextId) && unchanged(redis)
      ensures !EmailTaken(old(repo.users), data.email) && InIntegerRange(old(repo.nextId)) ==>
                var u := NewRow(old(repo.nextId), RegistrationRow(data, JwtService.HashPassword(data.password, salt)));
                && r == Ok(ToResponse(u))
                && repo.users == old(repo.users)[u.id := u] && repo.nextId == old(repo.nextId) + 1
                && u.email == data.email && u.isActive && u.role == DefaultRole
                && VerifyPassword(data.password, u.hashPassword)
                && redis.entries == old(redis.entries)[SessionKey(IssuedRefreshToken(cfg, u.id, now)) := IntToString(u.id)]
                && redis.ttl == old(redis.ttl)[SessionKey(IssuedRefreshToken(cfg, u.id, now)) := RefreshTtl(cfg)]
                && resp == SessionCookies(cfg, u.id, now)
    {
      var exist := repo.FindOneOrNone(map[Email := Str(data.email)]);
      if exist.Some? {
        MatchesEmail(exist.value, data.email);
        return Err(AlreadyExistsException("Email already registered")), map[];
      }
      if EmailTaken(repo.users, data.email) {
        var id :| id in repo.users && repo.users[id].email == data.email;
        MatchesEmail(repo.users[id], data.email);
      }
      var hashPassword := JwtService.HashPassword(data.password, salt);
      RegistrationRowFits(data, hashPassword, repo.nextId);
      var added := repo.Add(RegistrationRow(data, hashPassword));
      match added
      case Err(e) =>
        // a valid registration with a fresh email is refused only once the ids are spent
        assert !InIntegerRange(old(repo.nextId)) && e == SequenceExhausted;
        return Err(e), map[];
      case Ok(newUser) =>
        resp := StartSession(newUser.id, now);
        r := Ok(ToResponse(newUser));
    }

    /**
     * update_profile: writes the fields the body carries (an explicit null
     * is skipped); a new email another row holds, or nothing to write, is
     * refused before the UPDATE.
     */
    method UpdateProfile(user: User, data: UpdateUser) returns (r: Result<UserResponse>)
      requires Valid()
      modifies repo`users
      ensures Valid()
      ensures EmailChangeConflicts(old(repo.users), user, data) ==>
                r == Err(AlreadyExistsException("Email already in use")) && repo.users == old(repo.users)
      ensures !EmailChangeConflicts(old(repo.users), user, data) && DumpExcludeNone(data) == map[] ==>
                r == Err(NotFoundException("No data to update")) && repo.users == old(repo.users)
      ensures !EmailChangeConflicts(old(repo.users), user, data) && DumpExcludeNone(data) != map[] ==>
                && (!InIntegerRange(user.id) ==> r == Err(IdOutOfRange) && repo.users == old(repo.users))
                && (InIntegerRange(user.id) && user.id !in old(repo.users) ==>
                      r == Err(UserRepository.NotFoundAfterUpdate) && repo.users == old(repo.users))
                && (InIntegerRange(user.id) && user.id in old(repo.users)
                    && !UpdateOk(old(repo.users), user.id, DumpExcludeNone(data)) ==>
                      r == Err(WriteRefused) && repo.users == old(repo.users))
                && (InIntegerRange(user.id) && user.id in old(repo.users)
                    && UpdateOk(old(repo.users), user.id, DumpExcludeNone(data)) ==>
                      && repo.users == old(repo.users)[user.id := Apply(old(repo.users)[user.id], DumpExcludeNone(data))]
                      && r == Ok(ToResponse(repo.users[user.id])))
    {
      if data.email.Some? && data.email.value != "" && data.email.value != user.email {
        var existing := repo.FindOneOrNone(map[Email := Str(data.email.value)]);
        if existing.Some? {
          MatchesEmail(existing.value, data.email.value);
          return Err(AlreadyExistsException("Email already in use"));
        }
        if EmailTaken(repo.users, data.email.value) {
          var id :| id in repo.users && repo.users[id].email == data.email.value;
          MatchesEmail(repo.users[id], data.email.value);
        }
      }
      var updateData := DumpExcludeNone(data);
      if updateData == map[] {
        return Err(NotFoundException("No data to update"));
      }
      var updated := repo.Update(user.id, updateData);
      match updated
      case Err(e) => r := Err(e);
      case Ok(u) => r := Ok(ToResponse(u));
    }

    /** delete_user: a soft delete that clears is_active; the user's stored sessions stay. */
    method DeleteUser(user: User) returns (r: Result<string>)
      requires Valid()
      modifies repo`users
      ensures Valid()
      ensures InIntegerRange(user.id) && user.id in old(repo.users) ==>
                && r == Ok(AccountDeleted)
                && repo.users == old(repo.users)[user.id := old(repo.users)[user.id].(isActive := false)]
      ensures InIntegerRange(user.id) && user.id !in old(repo.users) ==>
                r == Err(UserRepository.NotFoundAfterUpdate) && repo.users == old(repo.users)
      ensures !InIntegerRange(user.id) ==> r == Err(IdOutOfRange) && repo.users == old(repo.users)
      ensures redis.entries == old(redis.entries)
    {
      var updated := repo.Update(user.id, map[IsActive := Bool(false)]);
      if updated.Err? {
        return Err(updated.error);
      }
      r := Ok(AccountDeleted);
    }

    /**
     * refresh_token: rotates the session named by the refresh cookie. A
     * session whose value is not an id, or whose user is gone or inactive,
     * is deleted; a missing or empty one is left alone, and so is one whose
     * id the `id` column cannot hold, which ends the request with the
     * driver's DataError. On success the old session is deleted before the
     * new one is stored.
     */
    method RefreshToken(cookies: RequestCookies, now: int) returns (r: Result<UserResponse>, resp: ResponseCookies)
      requires Valid()
      modifies redis
      ensures Valid()
      ensures r.Err? ==> resp == map[] && (r.error.InvalidCredentials? || r.error == IdOutOfRange)
      ensures Presented(cookies, "refresh_token").None? ==>
                r == Err(InvalidCredentialsException(NoRefreshCookie)) && unchanged(redis)
      ensures Presented(cookies, "refresh_token").Some? ==>
                var key := SessionKey(Presented(cookies, "refresh_token").value);
                && (key !in old(redis.entries) || old(redis.entries)[key] == "" ==>
                      r == Err(InvalidCredentialsException(SessionInvalid)) && unchanged(redis))
                && (key in old(redis.entries) && old(redis.entries)[key] != "" ==>
                      && (ParseInt(old(redis.entries)[key]).None? ==>
                            r == Err(InvalidCredentialsException(SessionCorrupt))
                            && redis.entries == old(redis.entries) - {key} && redis.ttl == old(redis.ttl) - {key})
                      && (ParseInt(old(redis.entries)[key]).Some? ==>
                            var id := ParseInt(old(redis.entries)[key]).value;
                            && (!InIntegerRange(id) ==> r == Err(IdOutOfRange) && unchanged(redis))
                            && (InIntegerRange(id) && (id !in repo.users || !repo.users[id].isActive) ==>
                                  r == Err(InvalidCredentialsException(SessionUserGone))
                                  && redis.entries == old(redis.entries) - {key} && redis.ttl == old(redis.ttl) - {key})
                            && (InIntegerRange(id) && id in repo.users && repo.users[id].isActive ==>
                                  && r == Ok(ToResponse(repo.users[id]))
                                  && redis.entries == (old(redis.entries) - {key})[SessionKey(IssuedRefreshToken(cfg, id, now)) := IntToString(id)]
                                  && redis.ttl == (old(redis.ttl) - {key})[SessionKey(IssuedRefreshToken(cfg, id, now)) := RefreshTtl(cfg)]
                                  && resp == SessionCookies(cfg, id, now))))
      // Rotation: success needs a live session, and the presented token is spent unless it was just re-minted.
      ensures r.Ok? ==> Presented(cookies, "refresh_token").Some?
                        && SessionKey(Presented(cookies, "refresh_token").value) in old(redis.entries)
      ensures r.Ok? && Presented(cookies, "refresh_token").value != IssuedRefreshToken(cfg, r.value.id, now) ==>
                SessionKey(Presented(cookies, "refresh_token").value) !in redis.entries
    {
      var presented := Presented(cookies, "refresh_token");
      if presented.None? {
        return Err(InvalidCredentialsException(NoRefreshCookie)), map[];
      }
      var key := SessionKey(presented.value);
      var stored := redis.Get(key);
      if stored.None? || stored.value == "" {
        return Err(InvalidCredentialsException(SessionInvalid)), map[];
      }
      var parsed := ParseInt(stored.value);
      if parsed.None? {
        var removed := redis.Delete(key);
        return Err(InvalidCredentialsException(SessionCorrupt)), map[];
      }
      var found := repo.FindById(parsed.value);
      if found.Err? {
        return Err(found.error), map[];
      }
      if found.value.None? || !found.value.value.isActive {
        var removed := redis.Delete(key);
        return Err(InvalidCredentialsException(SessionUserGone)), map[];
      }
      var user := found.value.value;
      var removed := redis.Delete(key);
      resp := StartSession(user.id, now);
      r := Ok(ToResponse(user));
      SessionKeyInjective(presented.value, IssuedRefreshToken(cfg, user.id, now));
    }
  }
}
