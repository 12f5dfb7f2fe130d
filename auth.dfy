/**
 * The request-authentication middleware (`validateAuth`) and its silent
 * refresh (`reIssueAccessToken`).
 *
 * `Authenticate` is the decision procedure as a function of the request and
 * the two tables: proceed with the access token's identity, proceed with an
 * identity re-derived from the session and user rows (plus a new access
 * token), or reject. The methods `ReIssueAccessToken` and `ValidateAuth` run
 * the same steps in the source's order against the `Db` and an Express-like
 * `Response`, and are proved to agree with it.
 */
module Auth {
  import opened Wrappers
  import opened Jwt
  import opened Schema

  /** An incoming header: absent, sent once, or repeated (Node gives an array). */
  datatype HeaderValue = Absent | Single(value: string) | Repeated(values: seq<string>)

  /** The parts of a request the core reads. */
  datatype Request = Request(authorization: Option<string>, refresh: HeaderValue, userAgent: Option<string>)

  /** Why a request was rejected; all of them answer 401 alike. */
  datatype AuthError =
    | InvalidAccessToken
    | RefreshTokenExpired
    | InvalidRefreshToken
    | SessionNotFound
    | SessionRevoked
    | UserNotFound

  /** The identity a request proceeds with, and the access token issued on the way, if any. */
  datatype Identity = Identity(user: Claims, issued: Option<string>)

  const AccessTokenHeader: string := "x-access-token"
  const StatusUnauthorized: int := 401
  const BearerWord: string := "Bearer"

  /** A character matched by `\s` in a JavaScript regular expression with the `u` flag. */
  predicate IsRegExpSpace(c: char) {
    var n := c as int;
    || 9 <= n <= 13 || n == 32 || n == 0xA0 || n == 0x1680
    || 0x2000 <= n <= 0x200A || n == 0x2028 || n == 0x2029
    || n == 0x202F || n == 0x205F || n == 0x3000 || n == 0xFEFF
  }

  predicate HasBearerPrefix(h: string) {
    |h| > |BearerWord| && h[..|BearerWord|] == BearerWord && IsRegExpSpace(h[|BearerWord|])
  }

  /**
   * Removing a leading "Bearer" and one whitespace character: the result is a
   * suffix of `h`; it is shorter exactly when `h` has that prefix, and then by
   * exactly those seven characters.
   */
  function StripBearer(h: string): (r: string)
    ensures |r| <= |h| && r == h[|h| - |r|..]
    ensures r != h <==> HasBearerPrefix(h)
    ensures HasBearerPrefix(h) ==> |r| == |h| - 7 && h == BearerWord + [h[6]] + r
  {
    if HasBearerPrefix(h) then h[|BearerWord| + 1..] else h
  }

  /** The access token: the authorization header without its bearer prefix, or "" when absent. */
  function AccessToken(request: Request): (token: string)
    ensures request.authorization.None? ==> token == ""
    ensures request.authorization.Some? ==>
              var h := request.authorization.value;
              |token| <= |h| && token == h[|h| - |token|..] && (token != h <==> HasBearerPrefix(h))
  {
    match request.authorization
    case None => ""
    case Some(h) => StripBearer(h)
  }

  /** The refresh token: the `x-refresh` header, its first value when repeated, or "" when none was sent. */
  function RefreshToken(request: Request): (token: string)
    ensures request.refresh.Single? ==> token == request.refresh.value
    ensures request.refresh.Repeated? && |request.refresh.values| > 0 ==> token == request.refresh.values[0]
    ensures request.refresh.Absent? || request.refresh == Repeated([]) ==> token == ""
  {
    match request.refresh
    case Absent => ""
    case Single(v) => v
    case Repeated(vs) => if |vs| > 0 then vs[0] else ""
  }

  /**
   * The claims of a refreshed identity, built from the rows, never from the
   * refresh token: they pass the schema whenever both ids are positive and the
   * stored address is an e-mail.
   */
  function ClaimsFromRows(u: User, s: Session): (c: Claims)
    ensures c.id == u.id && c.name == u.name && c.email == u.email && c.sessionId == s.id
    ensures forall cfg: Config :: u.id > 0 && s.id > 0 && cfg.isEmail(u.email) ==> SatisfiesSchema(cfg, c)
  {
    Claims(u.id, u.name, u.email, s.id)
  }

  /**
   * `reIssueAccessToken`: the refresh token must verify as valid; its session
   * must exist and be valid; the session's user must exist. The new identity
   * comes from those two rows and is issued as a new access token.
   */
  function ReIssue(cfg: Config, request: Request, sessions: seq<Session>, users: seq<User>): (r: Result<Identity, AuthError>)
    ensures VerifyJwt(cfg, RefreshToken(request)).Expired? ==> r == Err(RefreshTokenExpired)
    ensures VerifyJwt(cfg, RefreshToken(request)).Invalid? ==> r == Err(InvalidRefreshToken)
    ensures r.Ok? ==>
      && VerifyJwt(cfg, RefreshToken(request)).Valid?
      && var s := SessionById(sessions, VerifyJwt(cfg, RefreshToken(request)).payload.sessionId);
      && s.Some? && IsTruthy(s.value.valid)
      && var u := UserById(users, s.value.userId);
      && u.Some? && r.value.user == ClaimsFromRows(u.value, s.value)
      && r.value.issued == Some(CreateJwt(cfg, JObject(ClaimsJson(r.value.user)), RefreshAgeOptions(cfg)))
    ensures r.Err? && VerifyJwt(cfg, RefreshToken(request)).Valid? ==>
      var s := SessionById(sessions, VerifyJwt(cfg, RefreshToken(request)).payload.sessionId);
      || (s.None? && r.error == SessionNotFound)
      || (s.Some? && !IsTruthy(s.value.valid) && r.error == SessionRevoked)
      || (s.Some? && IsTruthy(s.value.valid) && UserById(users, s.value.userId).None? && r.error == UserNotFound)
  {
    match VerifyJwt(cfg, RefreshToken(request))
    case Expired => Err(RefreshTokenExpired)
    case Invalid => Err(InvalidRefreshToken)
    case Valid(p) =>
      match SessionById(sessions, p.sessionId)
      case None => Err(SessionNotFound)
      case Some(s) =>
        if !IsTruthy(s.valid) then Err(SessionRevoked)
        else
          match UserById(users, s.userId)
          case None => Err(UserNotFound)
          case Some(u) =>
            var c := ClaimsFromRows(u, s);
            Ok(Identity(c, Some(CreateJwt(cfg, JObject(ClaimsJson(c)), RefreshAgeOptions(cfg)))))
  }

  /**
   * `validateAuth`: a valid access token proceeds with its own claims and
   * issues nothing; an invalid one is rejected without looking at `x-refresh`;
   * an expired one proceeds only through a successful refresh, which is the
   * only way a new access token is issued.
   */
  function Authenticate(cfg: Config, request: Request, sessions: seq<Session>, users: seq<User>): (r: Result<Identity, AuthError>)
    ensures VerifyJwt(cfg, AccessToken(request)).Valid? ==>
              r == Ok(Identity(VerifyJwt(cfg, AccessToken(request)).payload, None))
    ensures VerifyJwt(cfg, AccessToken(request)).Invalid? ==> r == Err(InvalidAccessToken)
    ensures VerifyJwt(cfg, AccessToken(request)).Expired? ==> r == ReIssue(cfg, request, sessions, users)
    ensures r.Ok? ==> (r.value.issued.Some? <==> VerifyJwt(cfg, AccessToken(request)).Expired?)
  {
    match VerifyJwt(cfg, AccessToken(request))
    case Valid(p) => Ok(Identity(p, None))
    case Invalid => Err(InvalidAccessToken)
    case Expired => ReIssue(cfg, request, sessions, users)
  }

  /** The Express response object, as far as the middleware touches it. */
  class Response {
    var status: int
    var headers: map<string, string>
    /** `response.locals.user`. */
    var localsUser: Option<Claims>
    /** How many times `next()` has been called: the request handed on to the route handler. */
    var nextCalls: nat

    constructor ()
      ensures status == 200 && headers == map[] && localsUser == None && nextCalls == 0
    {
      status, headers, localsUser, nextCalls := 200, map[], None, 0;
    }

    method SetHeader(name: string, value: string)
      modifies this`headers
      ensures headers == old(headers)[name := value]
    {
      headers := headers[name := value];
    }
  }

  /** `getLocalUser`: fails when the middleware left no identity, otherwise returns it unchanged. */
  function GetLocalUser(response: Response): (r: Result<Claims, string>)
    reads response
    ensures r.Ok? <==> response.localsUser.Some?
    ensures r.Ok? ==> r.value == response.localsUser.value
  {
    match response.localsUser
    case None => Err("No user found")
    case Some(u) => Ok(u)
  }

  /**
   * `reIssueAccessToken`, step by step: on success exactly one header,
   * `x-access-token`, is set; on failure the response is untouched.
   */
  method ReIssueAccessToken(cfg: Config, request: Request, db: Db, response: Response) returns (r: Result<Claims, AuthError>)
    modifies response`headers
    ensures match ReIssue(cfg, request, db.sessions, db.users)
      case Ok(id) => r == Ok(id.user) && id.issued.Some?
                     && response.headers == old(response.headers)[AccessTokenHeader := id.issued.value]
      case Err(e) => r == Err(e) && response.headers == old(response.headers)
  {
    var refreshToken := VerifyJwt(cfg, RefreshToken(request));
    if refreshToken.Expired? {
      return Err(RefreshTokenExpired);
    }
    if refreshToken.Invalid? {
      return Err(InvalidRefreshToken);
    }
    var session := SessionById(db.sessions, refreshToken.payload.sessionId);
    if session.None? {
      return Err(SessionNotFound);
    }
    if !IsTruthy(session.value.valid) {
      return Err(SessionRevoked);
    }
    var user := UserById(db.users, session.value.userId);
    if user.None? {
      return Err(UserNotFound);
    }
    var payload := ClaimsFromRows(user.value, session.value);
    var accessToken := CreateJwt(cfg, JObject(ClaimsJson(payload)), RefreshAgeOptions(cfg));
    response.SetHeader(AccessTokenHeader, accessToken);
    return Ok(payload);
  }

  /**
   * The middleware: either the identity is stored in `locals.user` and `next`
   * is called exactly once, or the status is 401 and `next` is not called.
   * There is no third, partial outcome.
   */
  method ValidateAuth(cfg: Config, request: Request, db: Db, response: Response)
    modifies response
    ensures match Authenticate(cfg, request, db.sessions, db.users)
      case Ok(id) =>
        && response.localsUser == Some(id.user)
        && response.nextCalls == old(response.nextCalls) + 1
        && response.status == old(response.status)
        && response.headers == (if id.issued.Some? then old(response.headers)[AccessTokenHeader := id.issued.value]
                                else old(response.headers))
      case Err(_) =>
        && response.status == StatusUnauthorized
        && response.nextCalls == old(response.nextCalls)
        && response.localsUser == old(response.localsUser)
        && response.headers == old(response.headers)
  {
    var verification := VerifyJwt(cfg, AccessToken(request));
    if verification.Invalid? {
      response.status := StatusUnauthorized;
      return;
    }
    var user: Claims;
    if verification.Expired? {
      var refreshed := ReIssueAccessToken(cfg, request, db, response);
      if refreshed.Err? {
        response.status := StatusUnauthorized;
        return;
      }
      user := refreshed.value;
    } else {
      user := verification.payload;
    }
    response.localsUser := Some(user);
    response.nextCalls := response.nextCalls + 1;
  }

  /**
   * A revoked session is never refreshed: with an expired access token the
   * request is rejected, and with any access token no new token is issued.
   */
  lemma RevokedSessionNeverRefreshed(cfg: Config, request: Request, sessions: seq<Session>, users: seq<User>)
    requires VerifyJwt(cfg, RefreshToken(request)).Valid?
    requires var s := SessionById(sessions, VerifyJwt(cfg, RefreshToken(request)).payload.sessionId);
             s.Some? && !IsTruthy(s.value.valid)
    ensures var r := Authenticate(cfg, request, sessions, users);
            && (VerifyJwt(cfg, AccessToken(request)).Expired? ==> r == Err(SessionRevoked))
            && (r.Ok? ==> r.value.issued.None?)
  {
  }

  /**
   * An invalid (not expired) access token is never refreshed, whatever the
   * refresh header and the tables hold.
   */
  lemma InvalidAccessNeverRefreshed(cfg: Config, request: Request, refresh: HeaderValue,
                                    sessions: seq<Session>, users: seq<User>)
    requires VerifyJwt(cfg, AccessToken(request)).Invalid?
    ensures Authenticate(cfg, request.(refresh := refresh), sessions, users) == Err(InvalidAccessToken)
  {
  }

  /**
   * The tables are consulted only on the refresh path: a valid access token
   * proceeds even if its session has since been revoked.
   */
  lemma TablesOnlyMatterWhenExpired(cfg: Config, request: Request,
                                    sessions: seq<Session>, users: seq<User>,
                                    sessions': seq<Session>, users': seq<User>)
    requires !VerifyJwt(cfg, AccessToken(request)).Expired?
    ensures Authenticate(cfg, request, sessions, users) == Authenticate(cfg, request, sessions', users')
  {
  }
}
