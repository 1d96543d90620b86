/** Issuing and verifying the service's JSON Web Tokens (RFC 7519): each token
    carries `iss`, `sub`, `exp` and a private `type` claim, and is signed with
    HMAC-SHA256 (RFC 7518, section 3.2) under one shared secret. */
module JwtService {

  import opened Wrappers
  import opened TokenTypes
  import opened Errors
  import opened Users

  /** The claims the service writes. `expiresAt` is a NumericDate: whole seconds since the epoch. */
  datatype Claims = Claims(issuer: string, subject: string, tokenType: string, expiresAt: int)

  /** An ideal message authentication code: the signature names the key and the
      claims it was computed over, so two signatures agree only when both do. */
  datatype Signature = HmacSha256(key: string, signed: Claims)

  datatype Token = Token(claims: Claims, signature: Signature)

  function Sign(secret: string, claims: Claims): Signature {
    HmacSha256(secret, claims)
  }

  /** The compact serialisation performed by the JWT library, kept abstract. */
  datatype Codec = Codec(encode: Token -> string, decode: string -> Option<Token>)

  /** The library reads back every token it wrote. */
  ghost predicate RoundTrips(codec: Codec) {
    forall t :: codec.decode(codec.encode(t)) == Some(t)
  }

  /** The four injected properties: `jwt.token.secret`, `spring.application.name`
      and the two lifetimes in minutes. */
  datatype JwtConfig = JwtConfig(secret: string, issuer: string, accessExpiration: int, refreshExpiration: int)

  function Lifetime(cfg: JwtConfig, kind: TokenType): int {
    if kind == Access then cfg.accessExpiration else cfg.refreshExpiration
  }

  /** `generateExpirationDate`: the clock plus the lifetime, written into `exp`
      in whole seconds (the library drops the milliseconds). `now` is in epoch milliseconds. */
  function ExpirationDate(now: nat, minutes: int): (exp: int)
    ensures exp * 1000 <= now + minutes * 60000 < exp * 1000 + 1000
  {
    (now + minutes * 60000) / 1000
  }

  /** The token `generateAccessToken`/`generateRefreshToken` build before serialising it. */
  function Issue(cfg: JwtConfig, kind: TokenType, user: UserModel, now: nat): (t: Token)
    ensures t.claims.issuer == cfg.issuer && t.claims.subject == user.email
    ensures KindOf(t.claims.tokenType) == Some(kind)
    ensures t.claims.expiresAt == ExpirationDate(now, Lifetime(cfg, kind))
    ensures t.signature == Sign(cfg.secret, t.claims)
  {
    var claims := Claims(cfg.issuer, user.email, ClaimValue(kind), ExpirationDate(now, Lifetime(cfg, kind)));
    Token(claims, Sign(cfg.secret, claims))
  }

  function GenerateAccessToken(cfg: JwtConfig, codec: Codec, user: UserModel, now: nat): string {
    codec.encode(Issue(cfg, Access, user, now))
  }

  function GenerateRefreshToken(cfg: JwtConfig, codec: Codec, user: UserModel, now: nat): string {
    codec.encode(Issue(cfg, Refresh, user, now))
  }

  /** The verifier built from the secret, the issuer and the expected `type`
      claim, applied at instant `now` (epoch milliseconds). A token is live while
      `now` is before `exp` (RFC 7519, section 4.1.4). */
  function Verify(cfg: JwtConfig, expected: TokenType, token: string, codec: Codec, now: nat): (r: Result<Claims, Exception>)
    ensures r.Ok? <==>
      exists t :: codec.decode(token) == Some(t) && t.signature == Sign(cfg.secret, t.claims)
        && t.claims.issuer == cfg.issuer && KindOf(t.claims.tokenType) == Some(expected) && now < t.claims.expiresAt * 1000
    ensures r.Ok? ==> codec.decode(token) == Some(Token(r.value, Sign(cfg.secret, r.value)))
    ensures r.Err? ==> r.error.JwtVerification? && r.error.expected == expected
  {
    match codec.decode(token)
    case None => Err(JwtVerification(expected, Malformed))
    case Some(t) =>
      if t.signature != Sign(cfg.secret, t.claims) then Err(JwtVerification(expected, SignatureMismatch))
      else if t.claims.issuer != cfg.issuer then Err(JwtVerification(expected, IssuerMismatch))
      else if t.claims.tokenType != ClaimValue(expected) then Err(JwtVerification(expected, TypeMismatch))
      else if now >= t.claims.expiresAt * 1000 then Err(JwtVerification(expected, Expired))
      else Ok(t.claims)
  }

  /** `validateAccessToken`: the subject of a live access token. */
  function ValidateAccessToken(cfg: JwtConfig, codec: Codec, token: string, now: nat): (r: Result<string, Exception>)
    ensures r.Ok? <==> Verify(cfg, Access, token, codec, now).Ok?
    ensures r.Ok? ==> r.value == Verify(cfg, Access, token, codec, now).value.subject
    ensures r.Err? ==> r.error.JwtVerification? && r.error.expected == Access
  {
    var claims :- Verify(cfg, Access, token, codec, now);
    Ok(claims.subject)
  }

  /** `validateRefreshToken`: the subject of a live refresh token. */
  function ValidateRefreshToken(cfg: JwtConfig, codec: Codec, token: string, now: nat): (r: Result<string, Exception>)
    ensures r.Ok? <==> Verify(cfg, Refresh, token, codec, now).Ok?
    ensures r.Ok? ==> r.value == Verify(cfg, Refresh, token, codec, now).value.subject
    ensures r.Err? ==> r.error.JwtVerification? && r.error.expected == Refresh
  {
    var claims :- Verify(cfg, Refresh, token, codec, now);
    Ok(claims.subject)
  }

  /** `getExpirationTimeMillis`: the absolute `exp` instant of a live access
      token in epoch milliseconds (not a remaining duration). */
  function GetExpirationTimeMillis(cfg: JwtConfig, codec: Codec, token: string, now: nat): (r: Result<int, Exception>)
    ensures r.Ok? <==> Verify(cfg, Access, token, codec, now).Ok?
    ensures r.Ok? ==> r.value == Verify(cfg, Access, token, codec, now).value.expiresAt * 1000 && now < r.value
    ensures r.Err? ==> r.error.JwtVerification? && r.error.expected == Access
  {
    var claims :- Verify(cfg, Access, token, codec, now);
    Ok(claims.expiresAt * 1000)
  }

  // ------------------------------------------------------------ properties

  /** The instant in epoch milliseconds until which a token issued at `issuedAt` is live. */
  function ExpiresAtMillis(cfg: JwtConfig, kind: TokenType, issuedAt: nat): int {
    ExpirationDate(issuedAt, Lifetime(cfg, kind)) * 1000
  }

  /** An issued token verifies, under the same configuration, exactly while it is live. */
  lemma VerifyIssued(cfg: JwtConfig, codec: Codec, kind: TokenType, user: UserModel, issuedAt: nat, now: nat)
    requires RoundTrips(codec)
    ensures var r := Verify(cfg, kind, codec.encode(Issue(cfg, kind, user, issuedAt)), codec, now);
      && (r.Ok? <==> now < ExpiresAtMillis(cfg, kind, issuedAt))
      && (r.Ok? ==> r.value == Issue(cfg, kind, user, issuedAt).claims)
      && (r.Err? ==> r.error == JwtVerification(kind, Expired))
  {
    var t := Issue(cfg, kind, user, issuedAt);
    assert codec.decode(codec.encode(t)) == Some(t);
  }

  /** Validating an access token issued for `user` returns the user's email while the token is live. */
  lemma AccessRoundTrip(cfg: JwtConfig, codec: Codec, user: UserModel, issuedAt: nat, now: nat)
    requires RoundTrips(codec)
    requires now < ExpiresAtMillis(cfg, Access, issuedAt)
    ensures ValidateAccessToken(cfg, codec, GenerateAccessToken(cfg, codec, user, issuedAt), now) == Ok(user.email)
  {
    VerifyIssued(cfg, codec, Access, user, issuedAt, now);
  }

  /** Validating a refresh token issued for `user` returns the user's email while the token is live. */
  lemma RefreshRoundTrip(cfg: JwtConfig, codec: Codec, user: UserModel, issuedAt: nat, now: nat)
    requires RoundTrips(codec)
    requires now < ExpiresAtMillis(cfg, Refresh, issuedAt)
    ensures ValidateRefreshToken(cfg, codec, GenerateRefreshToken(cfg, codec, user, issuedAt), now) == Ok(user.email)
  {
    VerifyIssued(cfg, codec, Refresh, user, issuedAt, now);
  }

  /** The `type` claim keeps the kinds apart: an access token never passes as a
      refresh token nor a refresh token as an access token, at any instant. */
  lemma KindSeparation(cfg: JwtConfig, codec: Codec, user: UserModel, issuedAt: nat, now: nat)
    requires RoundTrips(codec)
    ensures ValidateRefreshToken(cfg, codec, GenerateAccessToken(cfg, codec, user, issuedAt), now)
      == Err(JwtVerification(Refresh, TypeMismatch))
    ensures ValidateAccessToken(cfg, codec, GenerateRefreshToken(cfg, codec, user, issuedAt), now)
      == Err(JwtVerification(Access, TypeMismatch))
    ensures GetExpirationTimeMillis(cfg, codec, GenerateRefreshToken(cfg, codec, user, issuedAt), now)
      == Err(JwtVerification(Access, TypeMismatch))
  {
    var a := Issue(cfg, Access, user, issuedAt);
    var r := Issue(cfg, Refresh, user, issuedAt);
    assert codec.decode(codec.encode(a)) == Some(a);
    assert codec.decode(codec.encode(r)) == Some(r);
    ClaimValueInjective(Access, Refresh);
  }

  /** A token from a service with another secret or another issuer fails every validator. */
  lemma ForeignTokensRejected(cfg: JwtConfig, other: JwtConfig, codec: Codec, kind: TokenType, user: UserModel, issuedAt: nat, now: nat)
    requires RoundTrips(codec)
    requires other.secret != cfg.secret || other.issuer != cfg.issuer
    ensures var s := codec.encode(Issue(other, kind, user, issuedAt));
      && ValidateAccessToken(cfg, codec, s, now).Err?
      && ValidateRefreshToken(cfg, codec, s, now).Err?
      && GetExpirationTimeMillis(cfg, codec, s, now).Err?
  {
    var t := Issue(other, kind, user, issuedAt);
    assert codec.decode(codec.encode(t)) == Some(t);
  }

  /** `getExpirationTimeMillis` of a live access token is the absolute expiry:
      the issuing instant plus the access lifetime, rounded down to the second. */
  lemma ExpirationIsAbsolute(cfg: JwtConfig, codec: Codec, user: UserModel, issuedAt: nat, now: nat)
    requires RoundTrips(codec)
    requires now < ExpiresAtMillis(cfg, Access, issuedAt)
    ensures var r := GetExpirationTimeMillis(cfg, codec, GenerateAccessToken(cfg, codec, user, issuedAt), now);
      && r.Ok?
      && r.value <= issuedAt + cfg.accessExpiration * 60000 < r.value + 1000
  {
    VerifyIssued(cfg, codec, Access, user, issuedAt, now);
  }

  /** An access token and a refresh token issued together share issuer and subject and differ only in kind and lifetime. */
  lemma PairShareIdentity(cfg: JwtConfig, user: UserModel, now: nat)
    ensures var a, r := Issue(cfg, Access, user, now), Issue(cfg, Refresh, user, now);
      && a.claims.issuer == r.claims.issuer && a.claims.subject == r.claims.subject
      && a.claims.tokenType != r.claims.tokenType
      && (cfg.accessExpiration == cfg.refreshExpiration ==> a.claims.expiresAt == r.claims.expiresAt)
      && (cfg.accessExpiration < cfg.refreshExpiration ==> a.claims.expiresAt <= r.claims.expiresAt)
  {
    ClaimValueInjective(Access, Refresh);
  }
}
