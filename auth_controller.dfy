/** The authentication endpoints: login and refresh answer with a new token
    pair (the access token in the body, the refresh token in an HttpOnly
    cookie); logout expires the cookie. */
module AuthController {

  import opened Wrappers
  import opened Errors
  import opened TokenTypes
  import opened Users
  import opened Store
  import opened JwtService
  import opened Requests
  import UserService

  /** A `Set-Cookie` header (RFC 6265); `maxAge` is in seconds. */
  datatype ResponseCookie = ResponseCookie(
    name: string, value: string, httpOnly: bool, secure: bool, path: string, maxAge: int, sameSite: Option<string>)

  /** `expiresIn` is the access token's `exp` in epoch milliseconds. */
  datatype TokenResponse = TokenResponse(accessToken: string, expiresIn: int)

  datatype AuthResponse = AuthResponse(status: int, cookie: ResponseCookie, body: Option<TokenResponse>)

  const COOKIE_NAME := "refresh-token"
  /** 24 hours, fixed: not derived from the refresh token's lifetime. */
  const COOKIE_MAX_AGE := 24 * 60 * 60

  /** The cookie carrying a refresh token. */
  function RefreshCookie(token: string): ResponseCookie {
    ResponseCookie(COOKIE_NAME, token, true, false, "/", COOKIE_MAX_AGE, Some("Lax"))
  }

  /** A fresh token pair for `user`, answered with 200. Reading back the new
      access token's expiry can itself fail. */
  function TokenPair(cfg: JwtConfig, codec: Codec, user: UserModel, now: nat): (r: Result<AuthResponse, Exception>)
    ensures r.Err? ==> r.error.JwtVerification? && r.error.expected == Access
    ensures r.Ok? ==> r.value.status == 200 && r.value.body.Some?
    ensures r.Ok? ==> r.value.cookie == RefreshCookie(GenerateRefreshToken(cfg, codec, user, now))
    ensures r.Ok? ==> r.value.body.value.accessToken == GenerateAccessToken(cfg, codec, user, now)
    ensures r.Ok? ==> now < r.value.body.value.expiresIn
  {
    var accessToken := GenerateAccessToken(cfg, codec, user, now);
    var refreshToken := GenerateRefreshToken(cfg, codec, user, now);
    var expiresIn :- GetExpirationTimeMillis(cfg, codec, accessToken, now);
    Ok(AuthResponse(200, RefreshCookie(refreshToken), Some(TokenResponse(accessToken, expiresIn))))
  }

  /** `login`: the authentication manager's verdict on the credentials is an
      input; a refusal is a bad-credentials failure. */
  function Login(cfg: JwtConfig, codec: Codec, request: LoginRequest, authenticated: Option<UserModel>, now: nat)
    : (r: Result<AuthResponse, Exception>)
    requires request.Valid()
    ensures authenticated.None? ==> r == Err(Authentication("BadCredentialsException"))
    ensures authenticated.Some? ==> r == TokenPair(cfg, codec, authenticated.value, now)
  {
    match authenticated
    case None => Err(Authentication("BadCredentialsException"))
    case Some(user) => TokenPair(cfg, codec, user, now)
  }

  /** `refreshToken`: the cookie must hold a live refresh token whose subject
      still has an account; the answer is a new pair for that account. */
  function RefreshTokens(cfg: JwtConfig, codec: Codec, users: map<Id, UserModel>, refreshToken: string, now: nat)
    : (r: Result<AuthResponse, Exception>)
    requires EmailsUnique(users)
    ensures ValidateRefreshToken(cfg, codec, refreshToken, now).Err? ==> r == Err(ValidateRefreshToken(cfg, codec, refreshToken, now).error)
    ensures r.Ok? ==> exists k :: k in users && users[k].email == ValidateRefreshToken(cfg, codec, refreshToken, now).value &&
                                  r == TokenPair(cfg, codec, users[k], now)
    ensures var v := ValidateRefreshToken(cfg, codec, refreshToken, now);
      v.Ok? && !ExistsByEmail(users, v.value) ==> r == Err(UserService.EmailNotFoundError(v.value))
    ensures var v := ValidateRefreshToken(cfg, codec, refreshToken, now);
      forall k :: k in users && v.Ok? && users[k].email == v.value ==> r == TokenPair(cfg, codec, users[k], now)
  {
    var email :- ValidateRefreshToken(cfg, codec, refreshToken, now);
    var user :- UserService.FindModelByEmail(users, email);
    TokenPair(cfg, codec, user, now)
  }

  /** `logout`: 204 with an emptied cookie that expires at once. */
  function Logout(): (r: AuthResponse)
    ensures r.status == 204 && r.body.None?
    ensures r.cookie.value == "" && r.cookie.maxAge == 0 && r.cookie.sameSite.None?
  {
    AuthResponse(204, ResponseCookie(COOKIE_NAME, "", true, false, "/", 0, None), None)
  }

  // ------------------------------------------------------ properties

  /** A token pair issued at `now` with positive lifetimes: both tokens name
      the user, each validates as its own kind, and `expiresIn` is the access
      token's expiry instant. With an access lifetime of zero or less the
      just-issued token is already expired and the pair is refused. */
  lemma TokenPairIssued(cfg: JwtConfig, codec: Codec, user: UserModel, now: nat)
    requires RoundTrips(codec)
    ensures cfg.accessExpiration <= 0 ==> TokenPair(cfg, codec, user, now) == Err(JwtVerification(Access, Expired))
    ensures cfg.accessExpiration > 0 ==>
      var r := TokenPair(cfg, codec, user, now);
      && r.Ok?
      && r.value.body.value.expiresIn == ExpiresAtMillis(cfg, Access, now)
      && ValidateAccessToken(cfg, codec, r.value.body.value.accessToken, now) == Ok(user.email)
      && (cfg.refreshExpiration > 0 ==> ValidateRefreshToken(cfg, codec, r.value.cookie.value, now) == Ok(user.email))
  {
    VerifyIssued(cfg, codec, Access, user, now, now);
    VerifyIssued(cfg, codec, Refresh, user, now, now);
  }

  /** The cookie's lifetime is 24 hours whatever the refresh token's lifetime:
      two configurations differing only there give cookies with the same
      attributes. */
  lemma CookieIgnoresRefreshLifetime(cfg: JwtConfig, minutes: int, codec: Codec, user: UserModel, now: nat)
    requires TokenPair(cfg, codec, user, now).Ok?
    ensures var r, r' := TokenPair(cfg, codec, user, now), TokenPair(cfg.(refreshExpiration := minutes), codec, user, now);
      && r'.Ok?
      && r.value.cookie.maxAge == r'.value.cookie.maxAge == COOKIE_MAX_AGE
      && r.value.cookie.(value := "") == r'.value.cookie.(value := "")
  {
  }

  /** A live refresh token of an existing account is rotated: the answer is
      exactly the pair a login of that account would get now. */
  lemma RefreshRotates(cfg: JwtConfig, codec: Codec, users: map<Id, UserModel>, id: Id, issuedAt: nat, now: nat)
    requires RoundTrips(codec) && EmailsUnique(users) && KeysAreIds(users) && id in users
    requires now < ExpiresAtMillis(cfg, Refresh, issuedAt)
    ensures RefreshTokens(cfg, codec, users, GenerateRefreshToken(cfg, codec, users[id], issuedAt), now)
      == TokenPair(cfg, codec, users[id], now)
  {
    RefreshRoundTrip(cfg, codec, users[id], issuedAt, now);
    UserService.FindByIdThenEmail(users, id);
  }

  /** Refresh fails once the token's subject has no account, and never accepts an access token. */
  lemma RefreshRefusals(cfg: JwtConfig, codec: Codec, users: map<Id, UserModel>, user: UserModel, issuedAt: nat, now: nat)
    requires RoundTrips(codec) && EmailsUnique(users)
    requires now < ExpiresAtMillis(cfg, Refresh, issuedAt)
    ensures !ExistsByEmail(users, user.email) ==>
      RefreshTokens(cfg, codec, users, GenerateRefreshToken(cfg, codec, user, issuedAt), now)
        == Err(UserNotFound("User not found with email: " + user.email))
    ensures RefreshTokens(cfg, codec, users, GenerateAccessToken(cfg, codec, user, issuedAt), now)
      == Err(JwtVerification(Refresh, TypeMismatch))
  {
    RefreshRoundTrip(cfg, codec, user, issuedAt, now);
    KindSeparation(cfg, codec, user, issuedAt, now);
  }

  /** The logout cookie overwrites the login cookie: same name, path and flags. */
  lemma LogoutReplacesCookie(token: string)
    ensures Logout().cookie.name == RefreshCookie(token).name
    ensures Logout().cookie.path == RefreshCookie(token).path
    ensures Logout().cookie.httpOnly == RefreshCookie(token).httpOnly && Logout().cookie.secure == RefreshCookie(token).secure
  {
  }
}
