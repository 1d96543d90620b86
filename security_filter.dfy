/** The per-request filter: reads the bearer access token and the refresh-token
    cookie, validates the one the route calls for, and authenticates its subject. */
module SecurityFilter {

  import opened Wrappers
  import opened Errors
  import opened TokenTypes
  import opened JavaStrings
  import opened Users
  import opened Store
  import opened JwtService
  import UserService

  const REFRESH_URI := "/api/v1/auth/refresh-token"
  const ACCESS_KEY := "access-token"
  const REFRESH_KEY := "refresh-token"
  const BEARER := "Bearer"

  datatype Cookie = Cookie(name: string, value: string)

  /** The parts of an HTTP request the filter reads; header and cookie array may be absent. */
  datatype HttpRequest = HttpRequest(uri: string, authorization: Option<string>, cookies: Option<seq<Cookie>>)

  /** A username/password authentication token: principal, no credentials, authorities. */
  datatype AuthenticationToken = AuthenticationToken(principal: string, credentials: Option<string>, authorities: seq<string>)

  // ------------------------------------------------------- extraction

  /** The access token of an `Authorization` header: the second element of its
      split on spaces when it starts with "Bearer "; a missing second element
      is an index error. */
  function BearerToken(header: Option<string>): (r: Result<Option<string>, Exception>)
    ensures header.None? || !StartsWith(header.value, BEARER + " ") ==> r == Ok(None)
    ensures r.Ok? && r.value.Some? ==> header.Some? && StartsWith(header.value, BEARER + " ")
    ensures r.Err? ==> r.error == IndexOutOfBounds
  {
    if header.None? || !StartsWith(header.value, BEARER + " ") then Ok(None)
    else
      var parts := SplitOnSpace(header.value);
      if |parts| < 2 then Err(IndexOutOfBounds) else Ok(Some(parts[1]))
  }

  /** The value of the first cookie called `name`. */
  function FirstCookie(cookies: seq<Cookie>, name: string): (r: Option<string>)
    ensures r.None? <==> forall i :: 0 <= i < |cookies| ==> cookies[i].name != name
    ensures r.Some? ==> exists i :: 0 <= i < |cookies| && cookies[i].name == name && cookies[i].value == r.value &&
                                   forall j :: 0 <= j < i ==> cookies[j].name != name
  {
    if cookies == [] then None
    else if cookies[0].name == name then Some(cookies[0].value)
    else
      var r := FirstCookie(cookies[1..], name);
      assert forall i :: 0 < i < |cookies| ==> cookies[i] == cookies[1..][i - 1];
      r
  }

  /** The refresh token a request carries, if any. */
  function RefreshCookie(cookies: Option<seq<Cookie>>): Option<string> {
    if cookies.None? then None else FirstCookie(cookies.value, REFRESH_KEY)
  }

  /** What `extractTokens` returns: both keys, each mapped to a token or to nothing. */
  function Tokens(req: HttpRequest): (r: Result<map<string, Option<string>>, Exception>)
    ensures r.Ok? <==> BearerToken(req.authorization).Ok?
    ensures r.Ok? ==> r.value.Keys == {ACCESS_KEY, REFRESH_KEY}
    ensures r.Ok? ==> r.value[ACCESS_KEY] == BearerToken(req.authorization).value
    ensures r.Ok? ==> r.value[REFRESH_KEY] == RefreshCookie(req.cookies)
  {
    var access :- BearerToken(req.authorization);
    Ok(map[ACCESS_KEY := access, REFRESH_KEY := RefreshCookie(req.cookies)])
  }

  /** `extractTokens`: the header, then a scan of the cookies up to the first refresh-token cookie. */
  method ExtractTokens(req: HttpRequest) returns (r: Result<map<string, Option<string>>, Exception>)
    ensures r == Tokens(req)
  {
    var access :- BearerToken(req.authorization);
    var refresh: Option<string> := None;
    if req.cookies.Some? {
      var cookies := req.cookies.value;
      var i := 0;
      while i < |cookies|
        invariant 0 <= i <= |cookies|
        invariant refresh.None?
        invariant forall j :: 0 <= j < i ==> cookies[j].name != REFRESH_KEY
      {
        if cookies[i].name == REFRESH_KEY {
          refresh := Some(cookies[i].value);
          break;
        }
        i := i + 1;
      }
    }
    r := Ok(map[ACCESS_KEY := access, REFRESH_KEY := refresh]);
  }

  // --------------------------------------------------- authentication

  /** The authentication built for a user found by the token's subject. */
  function AuthenticationOf(u: UserModel): (a: AuthenticationToken)
    ensures a.principal == u.email && a.credentials.None? && a.authorities == Authorities(u)
  {
    AuthenticationToken(u.email, None, Authorities(u))
  }

  /** The token the route calls for: the refresh cookie on the refresh route, the bearer token elsewhere. */
  function RouteToken(uri: string, tokens: map<string, Option<string>>): Option<string>
    requires ACCESS_KEY in tokens && REFRESH_KEY in tokens
  {
    if uri == REFRESH_URI then tokens[REFRESH_KEY] else tokens[ACCESS_KEY]
  }

  /** The validation the route applies: `validateRefreshToken` on the refresh
      route, `validateAccessToken` elsewhere. */
  function ValidateForRoute(uri: string, cfg: JwtConfig, codec: Codec, token: string, now: nat): Result<string, Exception> {
    if uri == REFRESH_URI then ValidateRefreshToken(cfg, codec, token, now)
    else ValidateAccessToken(cfg, codec, token, now)
  }

  /** `doFilterInternal` without its effect: what the filter authenticates, if
      anything, or what it throws. */
  function Authenticate(req: HttpRequest, cfg: JwtConfig, codec: Codec, users: map<Id, UserModel>, now: nat)
    : (r: Result<Option<AuthenticationToken>, Exception>)
    requires EmailsUnique(users)
    ensures Tokens(req).Err? ==> r == Err(IndexOutOfBounds)
    ensures r.Ok? && r.value.Some? ==>
      exists k :: k in users && r.value.value == AuthenticationOf(users[k])
    ensures Tokens(req).Ok? && RouteToken(req.uri, Tokens(req).value).None? ==> r == Ok(None)
    ensures Tokens(req).Ok? && RouteToken(req.uri, Tokens(req).value).Some? ==>
      var v := ValidateForRoute(req.uri, cfg, codec, RouteToken(req.uri, Tokens(req).value).value, now);
      && (v.Err? ==> r == Err(v.error))
      && (v.Ok? && !ExistsByEmail(users, v.value) ==> r == Err(UserService.EmailNotFoundError(v.value)))
      && (forall k :: k in users && v.Ok? && users[k].email == v.value ==> r == Ok(Some(AuthenticationOf(users[k]))))
    ensures r.Err? && r.error.JwtVerification? ==>
      r.error.expected == (if req.uri == REFRESH_URI then Refresh else Access)
  {
    var tokens :- Tokens(req);
    var token := RouteToken(req.uri, tokens);
    if token.None? then Ok(None)
    else
      var email :- ValidateForRoute(req.uri, cfg, codec, token.value, now);
      var user :- UserService.FindModelByEmail(users, email);
      Ok(Some(AuthenticationOf(user)))
  }

  /** The holder of the current request's authentication. */
  class SecurityContext {
    var authentication: Option<AuthenticationToken>

    constructor ()
      ensures authentication.None?
    {
      authentication := None;
    }
  }

  /** `doFilterInternal`: on success the context holds the authentication, if
      any, and the chain continues; an exception leaves the context as it was. */
  method DoFilterInternal(context: SecurityContext, req: HttpRequest, cfg: JwtConfig, codec: Codec, db: Database, now: nat)
    returns (r: Outcome<Exception>)
    requires db.Valid()
    modifies context
    ensures r.Fail? <==> Authenticate(req, cfg, codec, db.users, now).Err?
    ensures r.Fail? ==> r.error == Authenticate(req, cfg, codec, db.users, now).error
    ensures match Authenticate(req, cfg, codec, db.users, now)
      case Ok(Some(a)) => context.authentication == Some(a)
      case _ => context.authentication == old(context.authentication)
  {
    var tokens := ExtractTokens(req);
    if tokens.Err? {
      return Fail(tokens.error);
    }
    var accessToken := tokens.value[ACCESS_KEY];
    var refreshToken := tokens.value[REFRESH_KEY];
    if req.uri == REFRESH_URI {
      if refreshToken.Some? {
        var email := ValidateRefreshToken(cfg, codec, refreshToken.value, now);
        if email.Err? {
          return Fail(email.error);
        }
        var user := UserService.FindModelByEmail(db.users, email.value);
        if user.Err? {
          return Fail(user.error);
        }
        context.authentication := Some(AuthenticationOf(user.value));
      }
    } else {
      if accessToken.Some? {
        var email := ValidateAccessToken(cfg, codec, accessToken.value, now);
        if email.Err? {
          return Fail(email.error);
        }
        var user := UserService.FindModelByEmail(db.users, email.value);
        if user.Err? {
          return Fail(user.error);
        }
        context.authentication := Some(AuthenticationOf(user.value));
      }
    }
    r := Pass;
  }

  // ------------------------------------------------------- properties

  /** The bearer header's edge cases: "Bearer " alone is an index error; a token
      without spaces is taken whole; only the text up to the next space counts. */
  lemma BearerHeaderCases(t: string)
    ensures BearerToken(Some(BEARER + " " + t)).Ok? <==> exists k :: 0 <= k < |t| && t[k] != ' '
    ensures BearerToken(Some(BEARER + " " + t)).Ok? ==> BearerToken(Some(BEARER + " " + t)).value == Some(FirstPiece(t))
    ensures BearerToken(Some(BEARER + " ")) == Err(IndexOutOfBounds)
  {
    var h := BEARER + " " + t;
    assert h[..|BEARER + " "|] == BEARER + " ";
    assert h == BEARER + [' '] + t;
    SplitAfterWord(BEARER, t);
    assert BEARER + " " == BEARER + [' '] + "";
    SplitAfterWord(BEARER, "");
  }

  /** A compact token (non-empty, without spaces) after "Bearer " is extracted whole. */
  lemma BearerTokenOfCompact(t: string)
    requires t != [] && ' ' !in t
    ensures BearerToken(Some(BEARER + " " + t)) == Ok(Some(t))
  {
    BearerHeaderCases(t);
    assert t[0] != ' ';
    FirstPieceWithoutSpace(t);
  }

  /** On the refresh route the bearer header never authenticates (as long as it
      is well formed), and elsewhere the cookies never do. */
  lemma RouteDecides(req: HttpRequest, cfg: JwtConfig, codec: Codec, users: map<Id, UserModel>, now: nat,
                     header: Option<string>, cookies: Option<seq<Cookie>>)
    requires EmailsUnique(users)
    requires BearerToken(req.authorization).Ok? && BearerToken(header).Ok?
    ensures req.uri == REFRESH_URI ==>
      Authenticate(req.(authorization := header), cfg, codec, users, now) == Authenticate(req, cfg, codec, users, now)
    ensures req.uri != REFRESH_URI ==>
      Authenticate(req.(cookies := cookies), cfg, codec, users, now) == Authenticate(req, cfg, codec, users, now)
  {
  }

  /** A live access token of an existing user, sent as a bearer token on any
      route but the refresh route, authenticates that user with their authorities. */
  lemma AccessTokenAuthenticates(req: HttpRequest, cfg: JwtConfig, codec: Codec, users: map<Id, UserModel>,
                                 id: Id, issuedAt: nat, now: nat)
    requires EmailsUnique(users) && KeysAreIds(users) && id in users && RoundTrips(codec)
    requires now < ExpiresAtMillis(cfg, Access, issuedAt)
    requires var t := GenerateAccessToken(cfg, codec, users[id], issuedAt);
      t != [] && ' ' !in t && req.authorization == Some(BEARER + " " + t)
    requires req.uri != REFRESH_URI
    ensures Authenticate(req, cfg, codec, users, now) == Ok(Some(AuthenticationOf(users[id])))
  {
    var t := GenerateAccessToken(cfg, codec, users[id], issuedAt);
    BearerTokenOfCompact(t);
    AccessRoundTrip(cfg, codec, users[id], issuedAt, now);
    UserService.FindByIdThenEmail(users, id);
  }

  /** On the refresh route, a live refresh token of an existing user, held in the
      first refresh-token cookie, authenticates that user whatever the bearer
      header carries (as long as it is well formed). */
  lemma RefreshCookieAuthenticates(req: HttpRequest, cfg: JwtConfig, codec: Codec, users: map<Id, UserModel>,
                                   id: Id, issuedAt: nat, now: nat)
    requires EmailsUnique(users) && id in users && RoundTrips(codec)
    requires now < ExpiresAtMillis(cfg, Refresh, issuedAt)
    requires req.uri == REFRESH_URI && BearerToken(req.authorization).Ok?
    requires RefreshCookie(req.cookies) == Some(GenerateRefreshToken(cfg, codec, users[id], issuedAt))
    ensures Authenticate(req, cfg, codec, users, now) == Ok(Some(AuthenticationOf(users[id])))
  {
    RefreshRoundTrip(cfg, codec, users[id], issuedAt, now);
  }

  /** A refresh token sent as a bearer token is refused on the ordinary routes,
      however live it is. */
  lemma RefreshTokenIsNotABearer(req: HttpRequest, cfg: JwtConfig, codec: Codec, users: map<Id, UserModel>,
                                 user: UserModel, issuedAt: nat, now: nat)
    requires EmailsUnique(users) && RoundTrips(codec)
    requires var t := GenerateRefreshToken(cfg, codec, user, issuedAt);
      t != [] && ' ' !in t && req.authorization == Some(BEARER + " " + t)
    requires req.uri != REFRESH_URI
    ensures Authenticate(req, cfg, codec, users, now) == Err(JwtVerification(Access, TypeMismatch))
  {
    BearerTokenOfCompact(GenerateRefreshToken(cfg, codec, user, issuedAt));
    KindSeparation(cfg, codec, user, issuedAt, now);
  }
}
