/**
 * The token codec of the authentication helpers: the claims schema
 * (`jwtPayloadSchema`), token creation with default sign options
 * (`createJwt`) and the three-way classification of a token (`verifyJwt`).
 *
 * The `jsonwebtoken` library itself (RS256 signatures, `iat`/`exp` stamping,
 * clocks) is not modelled: its `sign` and `verify` are fields of a
 * `JwtLibrary` value, and what the model needs of them is stated once, as the
 * hypothesis `CodecRoundTrips`.
 */
module Jwt {
  import opened Wrappers

  /** The JSON values a token payload can carry. `JOther` stands for a value whose
      exact form the model does not fix: a fraction, a boolean, an array, or the
      ISO-8601 string a `Date` is serialised to. No claim the schema reads is one. */
  datatype Json = JInt(n: int) | JString(s: string) | JNull | JObject(fields: map<string, Json>) | JOther

  /** `JwtPayload`: the identity a verified token carries. */
  datatype Claims = Claims(id: int, name: string, email: string, sessionId: int)

  /** What `jwt.verify` does with a token: returns the decoded payload or throws. */
  datatype Decoding = Decoded(payload: Json) | Thrown(message: string)

  /** The options `jwt.sign` finally sees. */
  datatype SignSettings = SignSettings(algorithm: string, expiresIn: string)

  /** `SignOptions` as a caller passes them; an absent field keeps the default. */
  datatype SignOptions = SignOptions(algorithm: Option<string>, expiresIn: Option<string>)

  datatype JwtLibrary = JwtLibrary(
    sign: (Json, string, SignSettings) -> string,
    verify: (string, string) -> Decoding)

  /**
   * The process-wide configuration: the signing library, the key pair, the two
   * token ages, and zod's email-format check.
   */
  datatype Config = Config(
    lib: JwtLibrary,
    privateKey: string,
    publicKey: string,
    accessTokenAge: string,
    refreshTokenAge: string,
    isEmail: string -> bool)

  /** The three states a token is sorted into. */
  datatype Verification = Valid(payload: Claims) | Expired | Invalid

  const DefaultAlgorithm: string := "RS256"

  /** The message `jsonwebtoken` throws for a well-signed token past its `exp`. */
  const ExpiredMessage: string := "jwt expired"

  const NoOptions: SignOptions := SignOptions(None, None)

  /** `dbIdSchema`: a positive integer. */
  predicate IsDbId(j: Json) {
    j.JInt? && j.n > 0
  }

  /** The claims every valid token carries: positive ids and an email-format address. */
  predicate SatisfiesSchema(cfg: Config, c: Claims) {
    c.id > 0 && c.sessionId > 0 && cfg.isEmail(c.email)
  }

  /** The JSON object a `Claims` value is written as. */
  function ClaimsJson(c: Claims): map<string, Json> {
    map["id" := JInt(c.id), "name" := JString(c.name),
        "email" := JString(c.email), "session_id" := JInt(c.sessionId)]
  }

  /** `fields` has at least the entries of `inner`, with the same values. */
  predicate Extends(fields: map<string, Json>, inner: map<string, Json>) {
    forall k :: k in inner ==> k in fields && fields[k] == inner[k]
  }

  /**
   * The payload schema applied to a decoded token: the four claims are required with
   * their types; every other key is dropped instead of rejected.
   */
  function ParseClaims(cfg: Config, j: Json): (r: Option<Claims>)
    ensures r.Some? ==> SatisfiesSchema(cfg, r.value)
    ensures r.Some? ==> j.JObject? && Extends(j.fields, ClaimsJson(r.value))
  {
    if !j.JObject? then None
    else
      var f := j.fields;
      if && "id" in f && IsDbId(f["id"])
         && "name" in f && f["name"].JString?
         && "email" in f && f["email"].JString? && cfg.isEmail(f["email"].s)
         && "session_id" in f && IsDbId(f["session_id"])
      then Some(Claims(f["id"].n, f["name"].s, f["email"].s, f["session_id"].n))
      else None
  }

  /**
   * The schema accepts exactly the objects that extend a schema-satisfying
   * `Claims`, and returns that `Claims`: extra claims such as `iat` and `exp`
   * are stripped, never a reason for rejection.
   */
  lemma ParseClaimsExactly(cfg: Config, fields: map<string, Json>, c: Claims)
    ensures ParseClaims(cfg, JObject(fields)) == Some(c)
            <==> SatisfiesSchema(cfg, c) && Extends(fields, ClaimsJson(c))
  {
    if SatisfiesSchema(cfg, c) && Extends(fields, ClaimsJson(c)) {
      assert "id" in ClaimsJson(c) && "name" in ClaimsJson(c);
      assert "email" in ClaimsJson(c) && "session_id" in ClaimsJson(c);
    }
    if ParseClaims(cfg, JObject(fields)) == Some(c) {
      var d := ParseClaims(cfg, JObject(fields)).value;
      assert ClaimsJson(d)["id"] == JInt(c.id) && ClaimsJson(d)["session_id"] == JInt(c.sessionId);
      assert ClaimsJson(d)["name"] == JString(c.name) && ClaimsJson(d)["email"] == JString(c.email);
    }
  }

  /** The sign options: RS256 and the access-token age, each overridden by a caller's option. */
  function Settings(cfg: Config, options: SignOptions): (s: SignSettings)
    ensures options.algorithm.None? ==> s.algorithm == DefaultAlgorithm
    ensures options.expiresIn.None? ==> s.expiresIn == cfg.accessTokenAge
    ensures options.algorithm.Some? ==> s.algorithm == options.algorithm.value
    ensures options.expiresIn.Some? ==> s.expiresIn == options.expiresIn.value
  {
    SignSettings(options.algorithm.GetOr(DefaultAlgorithm), options.expiresIn.GetOr(cfg.accessTokenAge))
  }

  /**
   * The options `{ expiresIn: refreshTokenAge }`. The login refresh token is
   * signed with them, and so is a silently refreshed access token: the source
   * gives a refreshed access token the refresh-token age, and the model keeps
   * that choice as it is.
   */
  function RefreshAgeOptions(cfg: Config): (o: SignOptions)
    ensures Settings(cfg, o) == SignSettings(DefaultAlgorithm, cfg.refreshTokenAge)
  {
    SignOptions(None, Some(cfg.refreshTokenAge))
  }

  /**
   * `createJwt`: the library signs the payload with the private key and the
   * settled options. Under the codec hypothesis, an object payload without its
   * own `exp`/`nbf`, signed with the default algorithm, decodes back to a
   * superset of its fields or expires.
   */
  function CreateJwt(cfg: Config, payload: Json, options: SignOptions): (token: string)
    ensures CodecRoundTrips(cfg) && options.algorithm.None? && payload.JObject? && NoTimeClaims(payload.fields)
            ==> Recovers(cfg.lib.verify(token, cfg.publicKey), payload.fields)
  {
    cfg.lib.sign(payload, cfg.privateKey, Settings(cfg, options))
  }

  /**
   * `verifyJwt(token)`: valid with the parsed claims when the library decodes the
   * token and the payload fits the schema; expired exactly when the library
   * throws "jwt expired"; invalid in every other case, a payload that breaks the
   * schema included.
   */
  function VerifyJwt(cfg: Config, token: string): (v: Verification)
    ensures v.Expired? <==> cfg.lib.verify(token, cfg.publicKey) == Thrown(ExpiredMessage)
    ensures v.Valid? <==> cfg.lib.verify(token, cfg.publicKey).Decoded?
                          && ParseClaims(cfg, cfg.lib.verify(token, cfg.publicKey).payload).Some?
    ensures v.Valid? ==> SatisfiesSchema(cfg, v.payload)
    ensures v.Valid? ==> Some(v.payload) == ParseClaims(cfg, cfg.lib.verify(token, cfg.publicKey).payload)
  {
    match cfg.lib.verify(token, cfg.publicKey)
    case Decoded(payload) =>
      (match ParseClaims(cfg, payload)
       case Some(c) => Valid(c)
       case None => Invalid)
    case Thrown(message) => if message == ExpiredMessage then Expired else Invalid
  }

  /**
   * What the model assumes of `jsonwebtoken` under the configured key pair: a
   * token it signed with the default algorithm, from a payload that sets
   * neither `exp` nor `nbf` itself, verifies either to a payload that keeps
   * every signed field (the library may add `iat` and `exp`) or to the expiry
   * error. Other algorithms and caller-chosen `exp`/`nbf` claims can fail
   * verification for other reasons ("jwt not active", an algorithm mismatch),
   * so they are outside the hypothesis.
   */
  ghost predicate CodecRoundTrips(cfg: Config) {
    forall fields: map<string, Json>, settings: SignSettings
      | settings.algorithm == DefaultAlgorithm && NoTimeClaims(fields) ::
      Recovers(cfg.lib.verify(cfg.lib.sign(JObject(fields), cfg.privateKey, settings), cfg.publicKey), fields)
  }

  /** A payload the hypothesis speaks about: it sets neither `exp` nor `nbf` itself. */
  predicate NoTimeClaims(fields: map<string, Json>) {
    "exp" !in fields && "nbf" !in fields
  }

  predicate Recovers(d: Decoding, fields: map<string, Json>) {
    d == Thrown(ExpiredMessage) || (d.Decoded? && d.payload.JObject? && Extends(d.payload.fields, fields))
  }

  /**
   * Round trip: a token created from a payload that carries schema-satisfying
   * claims verifies as exactly those claims, or as expired; never as invalid,
   * whatever the token age, as long as the default algorithm is kept and the
   * payload sets no `exp` or `nbf` of its own.
   */
  lemma CreateThenVerify(cfg: Config, fields: map<string, Json>, c: Claims, options: SignOptions)
    requires CodecRoundTrips(cfg)
    requires options.algorithm.None? && NoTimeClaims(fields)
    requires SatisfiesSchema(cfg, c) && Extends(fields, ClaimsJson(c))
    ensures VerifyJwt(cfg, CreateJwt(cfg, JObject(fields), options)) in {Valid(c), Expired}
  {
    var token := CreateJwt(cfg, JObject(fields), options);
    var d := cfg.lib.verify(token, cfg.publicKey);
    if d.Decoded? {
      ParseClaimsExactly(cfg, d.payload.fields, c);
    }
  }
}
