/**
 * The session routes: login (POST /session) inserts a session row and issues
 * a token pair, logout (DELETE /session) revokes the current session, listing
 * (GET /session) returns the current user's valid sessions. The lemmas tie
 * logout to the revocation check of the refresh path.
 */
module SessionRoutes {
  import opened Wrappers
  import opened Jwt
  import opened Schema
  import opened Auth
  import Tables

  /** The answer to a login attempt: 401 with no body, or 201 with a token pair. */
  datatype LoginResponse = Unauthorized | Created(accessToken: string, refreshToken: string)

  /** The logout answer `{accessToken, refreshToken}`; both are always null. */
  datatype TokenPair = TokenPair(accessToken: Option<string>, refreshToken: Option<string>)

  /** A timestamp column as it lands in a token payload: null, or the ISO-8601 string of the date (`JOther`). */
  function TimestampJson(t: Option<int>): Json {
    if t.Some? then JOther else JNull
  }

  /**
   * The login token payload: every user column but the password, plus the
   * session id. It carries the claims of the user and session, no password,
   * and no `exp`/`nbf` of its own.
   */
  function LoginPayload(u: User, sessionId: int): (j: Json)
    ensures j.JObject? && Extends(j.fields, ClaimsJson(Claims(u.id, u.name, u.email, sessionId)))
    ensures "password" !in j.fields && NoTimeClaims(j.fields)
  {
    JObject(map["id" := JInt(u.id), "name" := JString(u.name), "email" := JString(u.email),
                "createdAt" := TimestampJson(u.createdAt), "updateAt" := TimestampJson(u.updateAt),
                "session_id" := JInt(sessionId)])
  }

  /** GET /session's filter: the sessions of `userId` whose `valid` column equals 1. */
  function ListedSession(userId: int): Session -> bool {
    (s: Session) => s.userId == userId && s.valid == Some(1)
  }

  /**
   * GET /session: the sessions of `userId` whose `valid` column equals 1, each
   * once, in table order.
   */
  function ValidSessionsOf(sessions: seq<Session>, userId: int): (r: seq<Session>)
    ensures Tables.IsSelection(r, sessions, ListedSession(userId))
    ensures forall i :: 0 <= i < |r| ==> r[i] in sessions && r[i].userId == userId && r[i].valid == Some(1)
    ensures forall i :: 0 <= i < |sessions| && sessions[i].userId == userId && sessions[i].valid == Some(1)
                        ==> sessions[i] in r
  {
    Tables.Select(sessions, ListedSession(userId))
  }

  /** Logout's update: the sessions with this id get `valid` 0, every other row stays. */
  function Invalidate(sessions: seq<Session>, id: int): (r: seq<Session>)
    ensures |r| == |sessions|
    ensures forall i :: 0 <= i < |r| ==>
              r[i] == (if sessions[i].id == id then sessions[i].(valid := Some(0)) else sessions[i])
  {
    Tables.Update(sessions, (s: Session) => s.id == id, (s: Session) => s.(valid := Some(0)))
  }

  /**
   * Logout changes exactly one row when the id names a session: that row's
   * `valid` becomes 0, its other columns and every other row, including the
   * same user's other sessions, stay as they were. An unknown id changes nothing.
   */
  lemma LogoutTouchesOneRow(sessions: seq<Session>, id: int)
    requires DenseSessionIds(sessions)
    ensures 1 <= id <= |sessions| ==>
              Invalidate(sessions, id) == sessions[id - 1 := sessions[id - 1].(valid := Some(0))]
    ensures !(1 <= id <= |sessions|) ==> Invalidate(sessions, id) == sessions
  {
    var r := Invalidate(sessions, id);
    if 1 <= id <= |sessions| {
      var expected := sessions[id - 1 := sessions[id - 1].(valid := Some(0))];
      assert forall i :: 0 <= i < |r| ==> r[i] == expected[i];
    } else {
      assert forall i :: 0 <= i < |r| ==> r[i] == sessions[i];
    }
  }

  /** Logging out twice leaves the table as logging out once. */
  lemma LogoutIdempotent(sessions: seq<Session>, id: int)
    ensures Invalidate(Invalidate(sessions, id), id) == Invalidate(sessions, id)
  {
    var once := Invalidate(sessions, id);
    var twice := Invalidate(once, id);
    assert forall i :: 0 <= i < |twice| ==> twice[i] == once[i];
  }

  /** Revocation is one-way: no row that was falsy becomes truthy again. */
  lemma LogoutNeverRevalidates(sessions: seq<Session>, id: int, i: int)
    requires 0 <= i < |sessions| && !IsTruthy(sessions[i].valid)
    ensures !IsTruthy(Invalidate(sessions, id)[i].valid)
  {
  }

  /**
   * After logout the session is no longer listed, and every other session the
   * user had listed is still listed.
   */
  lemma LogoutAndListing(sessions: seq<Session>, id: int, userId: int)
    ensures forall i :: 0 <= i < |ValidSessionsOf(Invalidate(sessions, id), userId)|
              ==> ValidSessionsOf(Invalidate(sessions, id), userId)[i].id != id
    ensures forall i :: 0 <= i < |sessions| && sessions[i].id != id
              && sessions[i].userId == userId && sessions[i].valid == Some(1)
              ==> sessions[i] in ValidSessionsOf(Invalidate(sessions, id), userId)
  {
    var after := Invalidate(sessions, id);
    var listed := ValidSessionsOf(after, userId);
    forall i | 0 <= i < |listed| ensures listed[i].id != id {
      var j :| 0 <= j < |after| && after[j] == listed[i];
    }
    forall i | 0 <= i < |sessions| && sessions[i].id != id
              && sessions[i].userId == userId && sessions[i].valid == Some(1)
      ensures sessions[i] in listed
    {
      assert after[i] == sessions[i];
    }
  }

  /**
   * After logout, the revoked session fails the refresh path: a request with an
   * expired access token and a refresh token naming that session is rejected,
   * however valid the refresh token itself still is.
   */
  lemma LogoutBlocksRefresh(cfg: Config, request: Request, sessions: seq<Session>, users: seq<User>, id: int)
    requires VerifyJwt(cfg, AccessToken(request)).Expired?
    requires VerifyJwt(cfg, RefreshToken(request)).Valid?
    requires VerifyJwt(cfg, RefreshToken(request)).payload.sessionId == id
    ensures var r := Authenticate(cfg, request, Invalidate(sessions, id), users);
            r == Err(SessionNotFound) || r == Err(SessionRevoked)
  {
    var after := Invalidate(sessions, id);
    var s := SessionById(after, id);
    if s.Some? {
      var j :| 0 <= j < |after| && after[j] == s.value;
      assert !IsTruthy(s.value.valid);
    }
  }

  /**
   * For a user whose id the database assigned (a positive rowid), both tokens
   * issued at login carry the same claims (the user's id, name and email and
   * the new session's id) and verify to exactly those claims or to "expired",
   * never to "invalid": the address was checked for email format by the
   * request contract and the row was found by that very address.
   */
  lemma LoginTokensVerify(cfg: Config, users: seq<User>, email: string, u: User, sessionId: int, options: SignOptions)
    requires CodecRoundTrips(cfg) && options.algorithm.None?
    requires cfg.isEmail(email) && sessionId > 0 && u.id > 0
    requires UserByEmail(users, email) == Some(u)
    ensures VerifyJwt(cfg, CreateJwt(cfg, LoginPayload(u, sessionId), options))
              in {Valid(Claims(u.id, u.name, u.email, sessionId)), Expired}
  {
    var c := Claims(u.id, u.name, u.email, sessionId);
    assert Extends(LoginPayload(u, sessionId).fields, ClaimsJson(c));
    CreateThenVerify(cfg, LoginPayload(u, sessionId).fields, c, options);
  }

  /**
   * As written, a user row whose id is not positive (the user schema lets the
   * client choose `id`) can still log in, but neither of its tokens ever
   * verifies as valid: the claims schema demands a positive id, so every
   * request made with them is rejected or, once expired, refreshed only to
   * fail again.
   */
  lemma NonPositiveIdTokensNeverValid(cfg: Config, u: User, sessionId: int, options: SignOptions)
    requires CodecRoundTrips(cfg) && options.algorithm.None?
    requires u.id <= 0
    ensures !VerifyJwt(cfg, CreateJwt(cfg, LoginPayload(u, sessionId), options)).Valid?
  {
    var payload := LoginPayload(u, sessionId);
    var d := cfg.lib.verify(CreateJwt(cfg, payload, options), cfg.publicKey);
    if d.Decoded? {
      assert "id" in payload.fields;
      assert d.payload.fields["id"] == JInt(u.id);
    }
  }

  /**
   * POST /session. An unknown address or a wrong password answers 401 and
   * inserts nothing. Otherwise exactly one session is appended for that user,
   * valid by default and carrying the request's user agent, and the answer is
   * an access token (default options) and a refresh token (refresh age) over
   * the same payload.
   */
  method Login(cfg: Config, db: Db, email: string, password: string, userAgent: Option<string>,
               passwordMatches: (string, string) -> bool) returns (r: LoginResponse)
    requires db.Valid()
    modifies db`sessions
    ensures db.Valid()
    ensures match UserByEmail(db.users, email)
      case None => r == Unauthorized && db.sessions == old(db.sessions)
      case Some(u) =>
        if !passwordMatches(password, u.password) then
          r == Unauthorized && db.sessions == old(db.sessions)
        else
          var s := Session(|old(db.sessions)| + 1, u.id, Some(SessionValidDefault), userAgent);
          && db.sessions == old(db.sessions) + [s]
          && r == Created(CreateJwt(cfg, LoginPayload(u, s.id), NoOptions),
                          CreateJwt(cfg, LoginPayload(u, s.id), RefreshAgeOptions(cfg)))
  {
    var user := UserByEmail(db.users, email);
    if user.None? || !passwordMatches(password, user.value.password) {
      return Unauthorized;
    }
    var session := db.InsertSession(user.value.id, userAgent);
    var payload := LoginPayload(user.value, session.id);
    var accessToken := CreateJwt(cfg, payload, NoOptions);
    var refreshToken := CreateJwt(cfg, payload, RefreshAgeOptions(cfg));
    return Created(accessToken, refreshToken);
  }

  /** DELETE /session: revokes the session named by the authenticated token, answers with null tokens. */
  method Logout(db: Db, identity: Claims) returns (r: TokenPair)
    requires db.Valid()
    modifies db`sessions
    ensures db.Valid()
    ensures db.sessions == Invalidate(old(db.sessions), identity.sessionId)
    ensures r == TokenPair(None, None)
  {
    db.SetSessionValid(identity.sessionId, 0);
    r := TokenPair(None, None);
  }
}
