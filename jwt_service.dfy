/**
 * src/security/jwt_service.py: the token codec and the password hasher.
 *
 * The JWT library and bcrypt are foreign code. The codec is modelled by a
 * concrete serialisation `Encode` of the claim set that is injective, and a
 * `DecodeToken` that accepts exactly the strings `Encode` produces, and only
 * before their expiry; every other string decodes to `None` (the source
 * turns every JWTError into None). Signatures and base64 are not modelled.
 * The clock is the explicit parameter `now`, in whole seconds.
 */
module JwtService {
  import opened Wrappers
  import opened PyInt
  import opened Serial

  /** The settings the token functions read (access_token_expire_minutes, refresh_token_expire_days). */
  datatype Config = Config(accessTokenExpireMinutes: int, refreshTokenExpireDays: int)

  /** Redis refuses `SET ... EX` without a positive expiry, so the refresh lifetime must be positive. */
  predicate ValidConfig(cfg: Config)
  {
    cfg.refreshTokenExpireDays > 0
  }

  /** A token payload: `sub` and `type` may be absent from a payload, `exp` is a timestamp. */
  datatype Claims = Claims(sub: Option<string>, exp: int, tokenType: Option<string>)

  function OptionText(o: Option<string>): string
  {
    match o
    case None => "-"
    case Some(s) => "+" + s
  }

  function TextOption(t: string): Option<Option<string>>
  {
    if t == "-" then Some(None)
    else if |t| >= 1 && t[0] == '+' then Some(Some(t[1..]))
    else None
  }

  /** A token is never empty: every field ends with its separator. */
  function Encode(c: Claims): (t: string)
    ensures |t| >= 3 && t[|t| - 1] == Sep
  {
    Field(IntToString(c.exp)) + Field(OptionText(c.sub)) + Field(OptionText(c.tokenType))
  }

  /** The three fields of a token and nothing after them. */
  function ReadThreeFields(t: string): Option<(string, string, string)>
  {
    match ReadField(t)
    case None => None
    case Some(p1) =>
      match ReadField(p1.1)
      case None => None
      case Some(p2) =>
        match ReadField(p2.1)
        case None => None
        case Some(p3) => if p3.1 != [] then None else Some((p1.0, p2.0, p3.0))
  }

  lemma ReadThreeWritten(f1: string, f2: string, f3: string)
    ensures ReadThreeFields(Field(f1) + Field(f2) + Field(f3)) == Some((f1, f2, f3))
  {
    assert Field(f1) + Field(f2) + Field(f3) == Field(f1) + (Field(f2) + (Field(f3) + []));
    ReadWrittenField(f1, Field(f2) + (Field(f3) + []));
    ReadWrittenField(f2, Field(f3) + []);
    ReadWrittenField(f3, []);
  }

  function ParseClaims(t: string): Option<Claims>
  {
    match ReadThreeFields(t)
    case None => None
    case Some(fields) =>
      match (ParseNumeral(fields.0), TextOption(fields.1), TextOption(fields.2))
      case (Some(exp), Some(sub), Some(typ)) => Some(Claims(sub, exp, typ))
      case _ => None
  }

  lemma TextOptionOfText(o: Option<string>)
    ensures TextOption(OptionText(o)) == Some(o)
  {
    if o.Some? {
      assert OptionText(o)[1..] == o.value;
    }
  }

  lemma ParseEncoded(c: Claims)
    ensures ParseClaims(Encode(c)) == Some(c)
  {
    var f1, f2, f3 := IntToString(c.exp), OptionText(c.sub), OptionText(c.tokenType);
    ReadThreeWritten(f1, f2, f3);
    assert ReadThreeFields(Encode(c)) == Some((f1, f2, f3));
    ParseNumeralToString(c.exp);
    TextOptionOfText(c.sub);
    TextOptionOfText(c.tokenType);
  }

  /** Different claim sets never share a token. */
  lemma EncodeInjective(c1: Claims, c2: Claims)
    ensures Encode(c1) == Encode(c2) <==> c1 == c2
  {
    if Encode(c1) == Encode(c2) {
      ParseEncoded(c1);
      ParseEncoded(c2);
    }
  }

  /**
   * decode_token: the claims of a token `Encode` produced, while it has not
   * expired; `None` for every other string. It never fails otherwise.
   */
  function DecodeToken(token: string, now: int): (r: Option<Claims>)
    ensures r.Some? ==> Encode(r.value) == token && now < r.value.exp
  {
    match ParseClaims(token)
    case None => None
    case Some(c) => if Encode(c) == token && now < c.exp then Some(c) else None
  }

  /** Decoding a token gives back its claims before `exp` and nothing from `exp` on. */
  lemma DecodeEncoded(c: Claims, now: int)
    ensures DecodeToken(Encode(c), now) == if now < c.exp then Some(c) else None
  {
    ParseEncoded(c);
  }

  lemma DecodeEncodedAlways(c: Claims)
    ensures forall now :: DecodeToken(Encode(c), now) == if now < c.exp then Some(c) else None
  {
    forall now ensures DecodeToken(Encode(c), now) == if now < c.exp then Some(c) else None {
      DecodeEncoded(c, now);
    }
  }

  /** A claim set with these three claims decodes to itself before `exp` and to nothing from then on. */
  lemma DecodeClaimsAlways(sub: string, exp: int, typ: string)
    ensures forall at ::
              DecodeToken(Encode(Claims(Some(sub), exp, Some(typ))), at) ==
                (if at < exp then Some(Claims(Some(sub), exp, Some(typ))) else None)
  {
    var c := Claims(Some(sub), exp, Some(typ));
    forall at ensures DecodeToken(Encode(c), at) == if at < exp then Some(c) else None {
      DecodeEncoded(c, at);
    }
  }

  function AccessTtl(cfg: Config): int { cfg.accessTokenExpireMinutes * 60 }

  function RefreshTtl(cfg: Config): int { cfg.refreshTokenExpireDays * 86400 }

  function AccessClaims(cfg: Config, userId: int, now: int): Claims
  {
    Claims(Some(IntToString(userId)), now + AccessTtl(cfg), Some("access"))
  }

  function RefreshClaims(cfg: Config, userId: int, now: int): Claims
  {
    Claims(Some(IntToString(userId)), now + RefreshTtl(cfg), Some("refresh"))
  }

  /**
   * create_access_token: a token whose claims are sub = str(user_id),
   * type = "access" and exp = now + access_token_expire_minutes minutes.
   */
  function CreateAccessToken(cfg: Config, userId: int, now: int): (token: string)
    ensures token != ""
    ensures forall at ::
              DecodeToken(token, at) ==
                (if at < now + cfg.accessTokenExpireMinutes * 60
                 then Some(Claims(Some(IntToString(userId)), now + cfg.accessTokenExpireMinutes * 60, Some("access")))
                 else None)
  {
    DecodeClaimsAlways(IntToString(userId), now + AccessTtl(cfg), "access");
    Encode(AccessClaims(cfg, userId, now))
  }

  /** create_access_token_response: the same token together with its lifetime in seconds. */
  function CreateAccessTokenResponse(cfg: Config, userId: int, now: int): (r: (string, int))
    ensures r.0 == CreateAccessToken(cfg, userId, now)
    ensures r.1 == cfg.accessTokenExpireMinutes * 60
  {
    (Encode(AccessClaims(cfg, userId, now)), AccessTtl(cfg))
  }

  /**
   * create_refresh_token: a token whose claims are sub = str(user_id),
   * type = "refresh" and exp = now + refresh_token_expire_days days, with
   * its lifetime in seconds.
   */
  function CreateRefreshToken(cfg: Config, userId: int, now: int): (r: (string, int))
    ensures forall at ::
              DecodeToken(r.0, at) ==
                (if at < now + cfg.refreshTokenExpireDays * 86400
                 then Some(Claims(Some(IntToString(userId)), now + cfg.refreshTokenExpireDays * 86400, Some("refresh")))
                 else None)
    ensures r.1 == cfg.refreshTokenExpireDays * 86400
  {
    DecodeClaimsAlways(IntToString(userId), now + RefreshTtl(cfg), "refresh");
    (Encode(RefreshClaims(cfg, userId, now)), RefreshTtl(cfg))
  }

  /** An access token and a refresh token are never the same string: their `type` claims differ. */
  lemma AccessIsNotRefresh(cfg: Config, userId: int, now: int, userId': int, now': int)
    ensures CreateAccessToken(cfg, userId, now) != CreateRefreshToken(cfg, userId', now').0
  {
    var access, refresh := AccessClaims(cfg, userId, now), RefreshClaims(cfg, userId', now');
    assert CreateAccessToken(cfg, userId, now) == Encode(access);
    assert CreateRefreshToken(cfg, userId', now').0 == Encode(refresh);
    EncodeInjective(access, refresh);
  }

  /**
   * Two refresh tokens are the same string exactly when they were minted
   * for the same user in the same second: the codec is deterministic.
   */
  lemma RefreshTokensCoincide(cfg: Config, userId: int, now: int, userId': int, now': int)
    ensures CreateRefreshToken(cfg, userId, now).0 == CreateRefreshToken(cfg, userId', now').0
            <==> userId == userId' && now == now'
  {
    var c, c' := RefreshClaims(cfg, userId, now), RefreshClaims(cfg, userId', now');
    assert CreateRefreshToken(cfg, userId, now).0 == Encode(c);
    assert CreateRefreshToken(cfg, userId', now').0 == Encode(c');
    EncodeInjective(c, c');
    IntToStringInjective(userId, userId');
  }

  /** bcrypt's identifier, standing for the whole algorithm. */
  const HashPrefix := "$2b$"

  /** The hash of a password under a salt: the identifier, the salt, then the digest. */
  function Hashed(password: string, salt: string): string
  {
    HashPrefix + Field(salt) + password
  }

  /** The salt a hash records behind bcrypt's identifier, if it is a hash at all. */
  function RecordedSalt(hashed: string): Option<string>
  {
    if |hashed| >= |HashPrefix| && hashed[..|HashPrefix|] == HashPrefix then
      match ReadField(hashed[|HashPrefix|..])
      case None => None
      case Some(p) => Some(p.0)
    else None
  }

  lemma RecordedSaltOfHashed(password: string, salt: string)
    ensures RecordedSalt(Hashed(password, salt)) == Some(salt)
  {
    var h := Hashed(password, salt);
    assert h[..|HashPrefix|] == HashPrefix;
    assert h[|HashPrefix|..] == Field(salt) + password;
    ReadWrittenField(salt, password);
  }

  /** hash_password: salted with a salt the caller draws (bcrypt.gensalt). */
  function HashPassword(password: string, salt: string): (h: string)
    ensures forall candidate :: VerifyPassword(candidate, h) <==> candidate == password
  {
    RecordedSaltOfHashed(password, salt);
    forall candidate | Hashed(candidate, salt) == Hashed(password, salt)
      ensures candidate == password
    {
      var k := |HashPrefix + Field(salt)|;
      assert candidate == Hashed(candidate, salt)[k..];
      assert password == Hashed(password, salt)[k..];
    }
    Hashed(password, salt)
  }

  /**
   * verify_password is bcrypt.checkpw: hashing the candidate under the salt
   * the hash records must give that hash again. So a hash accepts a
   * password only when it was made from that very password.
   */
  predicate VerifyPassword(password: string, hashed: string)
    ensures VerifyPassword(password, hashed) ==> exists salt :: hashed == Hashed(password, salt)
  {
    match RecordedSalt(hashed)
    case None => false
    case Some(salt) => Hashed(password, salt) == hashed
  }
}
