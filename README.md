# Prayer-tracker API core, modelled in Dafny

The system is an Express/ts-rest HTTP API over a SQLite database (drizzle ORM).
Users log in and get a JWT pair. They record the five daily prayers and their
fasts, and they list them again by day. This project models the part of the
server that decides who a request belongs to and what the three route groups do
to the tables:

- `wrappers.dfy` (`Wrappers`): `Option` and `Result`.
- `tables.dfy` (`Tables`): the three query shapes the handlers issue against a
  table held as a sequence of rows in rowid order. These are a select of all
  matches, drizzle's `.get()` (the first match) and an update.
- `schema.dfy` (`Schema`): the rows of `users`, `sessions`, `prayers` and
  `fasts`, and the class `Db` whose methods insert and update rows in place.
  Under `Db.Valid()` every session, prayer and fast row's id is its position
  plus one. User ids follow no pattern, because the client may choose them.
- `jwt.dfy` (`Jwt`): the claims schema, `createJwt` and the three-way
  `verifyJwt`. The signing library is a pair of function values. What the
  model needs of it is the single hypothesis `CodecRoundTrips`: a token it
  signed with RS256, from a payload that sets no `exp` or `nbf` of its own,
  decodes to a superset of the signed fields, or throws "jwt expired".
- `auth.dfy` (`Auth`): the bearer-prefix strip, `reIssueAccessToken`,
  `validateAuth` and `getLocalUser`. `Authenticate` is the decision as a
  function. The methods `ReIssueAccessToken` and `ValidateAuth` run the source's
  steps against `Db` and an Express-like `Response` class, and are proved equal
  to that decision.
- `session.routes`, `prayer.routes` and `fast.routes`:
  - `session.dfy` (`SessionRoutes`): login, logout and session listing.
  - `prayer.dfy` (`PrayerRoutes`): the prayer upsert and the prayer listing.
  - `fast.dfy` (`FastRoutes`): the fast record and the fast listing with its
    comma-separated `dates` query.

  The prayer and fast POSTs are each a method with a loop over the request
  items. Each is proved
  equal to a recursive specification function (`UpsertAll`, `RecordAll`), and
  the properties are lemmas about those functions.
- `aggregate.dfy` (`DrizzleHelpers`): `aggregateOneToMany`. It is a loop that
  fills a plain object keyed by `String(row[one])` and lists it with
  `Object.values`. The key order of `Object.values` is modelled too: array
  indices come first in ascending order, then the other keys in insertion order.

Collaborators that are not part of this model enter as parameters:

- the signing library;
- zod's e-mail check (`cfg.isEmail`);
- the password comparison (`passwordMatches`);
- dayjs `startOf("day")` (`sod`);
- `z.coerce.date()` on one piece of text (`coerceDate`);
- the current time (`now`).

## Model

| member | source | states |
|---|---|---|
| Tables.MatchIndices | src/routes/session.routes.ts:60-64 | the positions of the matching rows: all of them, each once, in increasing order |
| Tables.Select | src/routes/session.routes.ts:60-64 | the result is the rows at `MatchIndices`, in that order: every matching row exactly once, in table order, and nothing else |
| Tables.First | src/helpers/auth.helpers.ts:63-67 | `.get()` finds a row iff some row matches; the row it finds matches and is in the table |
| Tables.FirstIsEarliest | src/helpers/auth.helpers.ts:63-67 | the row `.get()` returns is the earliest matching row in table order |
| Tables.Update | src/routes/session.routes.ts:70-76 | an update keeps the number of rows (row contents: see `SessionRoutes.LogoutTouchesOneRow`) |
| Schema.SessionById | src/helpers/auth.helpers.ts:63-69 | the session lookup returns a row with that id, or none exists |
| Schema.UserById | src/helpers/auth.helpers.ts:72-78 | the user lookup returns a row with that id, or none exists |
| Schema.SessionByIdDense | src/schema.ts:22-23 | with rowid primary keys, the lookup by id is the row at position id-1, and none outside 1..n |
| Schema.Db.InsertSession | src/routes/session.routes.ts:90-97 | appends exactly one session with the next id, the user, the column default `valid = 1` and the user agent; ids stay dense |
| Schema.Db.SetSessionValid | src/routes/session.routes.ts:70-76 | the sessions table becomes the update of `valid` on the rows with that id |
| Schema.Db.InsertPrayer | src/routes/prayer.routes.ts:97-104 | appends exactly one prayer row with the next id and returns it |
| Schema.Db.UpdatePrayer | src/routes/prayer.routes.ts:88-96 | rewrites method and date of the row with that id only, keeps id, user and name, and returns the new row |
| Schema.Db.InsertFast | src/routes/fast.routes.ts:80-87 | appends exactly one fast row with the next id and returns it |
| Jwt.ParseClaims | src/helpers/auth.helpers.ts:17-22 | a payload accepted by the schema is an object with positive ids and an e-mail-format address, and holds the four claims with those values |
| Jwt.ParseClaimsExactly | src/helpers/auth.helpers.ts:41 | the stripping schema accepts an object iff it extends schema-satisfying claims, and then returns exactly them; extra keys are dropped, not rejected |
| Jwt.Settings | src/helpers/auth.helpers.ts:27-31 | RS256 and the access-token age, each replaced by the caller's option when given |
| Jwt.RefreshAgeOptions | src/helpers/auth.helpers.ts:86 | signing with `{ expiresIn: refreshTokenAge }` means RS256 and the refresh-token age; both the login refresh token and a refreshed access token use it |
| Jwt.CreateJwt | src/helpers/auth.helpers.ts:26-32 | under the codec hypothesis, a token created with the default algorithm from an object payload without its own `exp`/`nbf` decodes back to a superset of the payload's fields, or expires |
| Jwt.VerifyJwt | src/helpers/auth.helpers.ts:38-49 | expired iff the library throws "jwt expired"; valid iff it decodes and the schema accepts, and then it carries exactly the claims the schema parsed from the decoded payload; invalid otherwise |
| Jwt.CreateThenVerify | src/helpers/auth.helpers.ts:26-49 | a token created with the default algorithm, from a payload without its own `exp`/`nbf` that extends schema-satisfying claims, verifies to exactly those claims or to expired, never to invalid |
| Auth.AccessToken | src/helpers/auth.helpers.ts:94-96 | "" without an authorization header; otherwise a suffix of the header that differs from it iff the header carries the bearer prefix |
| Auth.RefreshToken | src/helpers/auth.helpers.ts:55-57 | the `x-refresh` value when sent once, its first value when repeated, "" when none was sent |
| Auth.ClaimsFromRows | src/helpers/auth.helpers.ts:80-85 | the refreshed identity takes id, name and e-mail from the user row and the session id from the session row; it passes the schema when both ids are positive and the address is an e-mail |
| Auth.StripBearer | src/helpers/auth.helpers.ts:95 | the result is a suffix of the header; it differs iff the header starts with "Bearer" and one `\s` character, and is then exactly 7 characters shorter |
| Auth.ReIssue | src/helpers/auth.helpers.ts:51-89 | expired or invalid refresh token, missing session, falsy `valid`, missing user each fail with their own error; success means all checks passed and the identity is built from the session and user rows and issued as a new token |
| Auth.Authenticate | src/helpers/auth.helpers.ts:91-113 | a valid access token proceeds with its own claims and issues nothing; an invalid one is rejected; an expired one has exactly the outcome of `ReIssue` (the silent refresh or its error); a token is issued iff the access token was expired and the refresh succeeded |
| Auth.Response.SetHeader | src/helpers/auth.helpers.ts:87 | sets that one header and leaves the others as they were |
| Auth.GetLocalUser | src/helpers/auth.helpers.ts:121-124 | fails iff no identity is stored; otherwise returns the stored identity |
| Auth.ReIssueAccessToken | src/helpers/auth.helpers.ts:51-89 | the method returns what `ReIssue` decides; on success exactly `x-access-token` is set to the issued token, on failure the headers are untouched |
| Auth.ValidateAuth | src/helpers/auth.helpers.ts:91-113 | on `Authenticate` success: `locals.user` is stored, `next` is called once, the status is kept, and the token header is set iff one was issued; on failure: 401, `next` is not called, and locals and headers are unchanged |
| Auth.RevokedSessionNeverRefreshed | src/helpers/auth.helpers.ts:69-70 | a refresh token naming a revoked session never yields a new access token; with an expired access token the request is rejected as revoked |
| Auth.InvalidAccessNeverRefreshed | src/helpers/auth.helpers.ts:97-98 | an invalid (not expired) access token is rejected whatever the refresh header |
| Auth.TablesOnlyMatterWhenExpired | src/helpers/auth.helpers.ts:100-102 | unless the access token is expired, the outcome does not depend on the tables |
| Schema.UserByEmail | src/routes/session.routes.ts:81-85 | returns a user row with that e-mail, or none has it |
| SessionRoutes.LoginPayload | src/routes/session.routes.ts:99-102 | the login payload carries the user's id, name and e-mail and the new session id as claims, no password, and no `exp`/`nbf` of its own |
| SessionRoutes.Invalidate | src/routes/session.routes.ts:70-76 | the row count is kept; rows with that id get `valid` 0, every other row stays as it was |
| SessionRoutes.ValidSessionsOf | src/routes/session.routes.ts:57-67 | lists exactly the user's sessions whose `valid` equals 1, each once, in table order |
| SessionRoutes.LogoutTouchesOneRow | src/routes/session.routes.ts:68-79 | for a known id only that row changes, and only its `valid` becomes 0; an unknown id changes nothing |
| SessionRoutes.LogoutIdempotent | src/routes/session.routes.ts:70-76 | logging out twice equals logging out once |
| SessionRoutes.LogoutNeverRevalidates | src/routes/session.routes.ts:70-76 | a session that was not valid stays not valid |
| SessionRoutes.LogoutAndListing | src/routes/session.routes.ts:57-79 | after logout the session is not listed, and every other listed session of the user still is |
| SessionRoutes.LogoutBlocksRefresh | src/routes/session.routes.ts:68-79 | after logout a refresh naming that session fails (not found or revoked), however valid the refresh token |
| SessionRoutes.NonPositiveIdTokensNeverValid | src/routes/session.routes.ts:99-107 | as written, the tokens issued at login to a user whose id is not positive never verify as valid |
| SessionRoutes.LoginTokensVerify | src/routes/session.routes.ts:99-107 | for a user with a positive id, signed with the default algorithm, as both login tokens are, they verify to the user's id, name and e-mail plus the new session id, or to expired, never to invalid |
| SessionRoutes.Login | src/routes/session.routes.ts:80-113 | unknown e-mail or wrong password: 401 and no insert; otherwise exactly one valid session is appended and the two tokens sign the same payload with default and refresh options |
| SessionRoutes.Logout | src/routes/session.routes.ts:68-79 | the sessions table becomes `Invalidate` of the token's session id; both tokens in the answer are null |
| PrayerRoutes.ParseName | src/routes/prayer.routes.ts:15 | the enum accepts exactly the five spellings and returns the one read |
| PrayerRoutes.ParseMethod | src/routes/prayer.routes.ts:16 | the enum accepts exactly the three spellings and returns the one read |
| PrayerRoutes.EnumsRoundTrip | src/routes/prayer.routes.ts:15-16 | writing an enum value and parsing it back gives that value |
| PrayerRoutes.GetPrayers | src/routes/prayer.routes.ts:49-67 | lists exactly the user's rows dated at the start of the query day (which defaults to now), each once, in table order |
| PrayerRoutes.Existing | src/routes/prayer.routes.ts:73-86 | finds a row of the user with that name dated at the start of the item's day, or no such row exists |
| PrayerRoutes.DenseRowAt | src/schema.ts:40-41 | a prayer row sits at position id-1 |
| PrayerRoutes.UpsertOne | src/routes/prayer.routes.ts:73-107 | one item answers one row and grows the table by at most one row (contents: `UpsertOneEffect`) |
| PrayerRoutes.UpsertAll | src/routes/prayer.routes.ts:71-109 | one answered row per item; ids stay dense; the table never shrinks |
| PrayerRoutes.UpsertOneEffect | src/routes/prayer.routes.ts:88-102 | the answered row is the user's, with the item's name, method and raw date; on a match it keeps the found row's id, the table keeps its length and only the found row changes; on a miss exactly one row, the answered one with the next id, is appended and nothing else changes; other users' rows are unchanged; existing rows keep id, user and name |
| PrayerRoutes.UpsertAllResponse | src/routes/prayer.routes.ts:71-114 | the answer lists, in request order, the user's row with each item's name, method and date |
| PrayerRoutes.UpsertAllFrame | src/routes/prayer.routes.ts:88-102 | other users' rows are untouched; a row no item matches is untouched; existing rows keep id, user and name; at most one row is added per item, and every added row belongs to the user |
| PrayerRoutes.UpsertOneKeepsOnePerDay | src/routes/prayer.routes.ts:73-102 | an item dated at a day start keeps at most one row per (user, name, day), and all rows at day start |
| PrayerRoutes.UpsertAllKeepsOnePerDay | src/routes/prayer.routes.ts:71-109 | items dated at day starts keep at most one row per (user, name, day), and all rows at day start |
| PrayerRoutes.UntruncatedDateAsWritten | src/routes/prayer.routes.ts:88-102 | as written, posting the same prayer twice at a time that is not a day start adds two rows for one (user, name, day), and the day's listing shows neither |
| PrayerRoutes.Truncated | src/routes/prayer.routes.ts:82 | the items keep name and method, and their dates move to the start of their day |
| PrayerRoutes.UpsertAtDayStartKeepsOnePerDay | src/routes/prayer.routes.ts:71-109 | storing the start of the day keeps one row per (user, name, day) for any request dates; each answered row is the user's, dated at its item's day start |
| PrayerRoutes.PostedPrayerListedAtDayStart | src/routes/prayer.routes.ts:49-109 | storing the start of the day, a posted prayer is listed when its day is read back |
| PrayerRoutes.PostPrayers | src/routes/prayer.routes.ts:68-115 | the loop leaves the prayers table and answer of `UpsertAll`; ids stay dense; no other table changes |
| PrayerRoutes.UpsertOneFound | src/routes/prayer.routes.ts:88-96 | a found row is updated in place at position id-1 |
| PrayerRoutes.UpsertAllStep | src/routes/prayer.routes.ts:71-109 | one more item extends the table and answer of `UpsertAll` by that item's upsert |
| FastRoutes.SplitOnComma | src/routes/fast.routes.ts:25 | at least one piece; no piece contains a comma |
| FastRoutes.JoinSplit | src/routes/fast.routes.ts:25 | joining the pieces with commas gives the text back |
| FastRoutes.SplitPrefix | src/routes/fast.routes.ts:25 | a comma-free prefix extends the first piece |
| FastRoutes.SplitJoin | src/routes/fast.routes.ts:25 | splitting the comma-join of comma-free pieces gives the pieces back |
| FastRoutes.CoerceAll | src/routes/fast.routes.ts:26 | succeeds iff every piece is a date, with one date per piece in order |
| FastRoutes.ParseDates | src/routes/fast.routes.ts:23-28 | absent: no filter; repeated: rejected; text: rejected iff some piece is not a date, else one date per piece |
| FastRoutes.GetFasts | src/routes/fast.routes.ts:46-66 | lists exactly the user's fasts, restricted to the query dates when given, each once, in table order |
| FastRoutes.ExistingFast | src/routes/fast.routes.ts:72-76 | finds the user's fast on that date, or none exists |
| FastRoutes.RecordOne | src/routes/fast.routes.ts:71-90 | a recorded date answers an existing row and changes nothing; a new date appends exactly one row for the user |
| FastRoutes.RecordAll | src/routes/fast.routes.ts:70-91 | one answered row per date |
| FastRoutes.RecordAllResponse | src/routes/fast.routes.ts:70-96 | the answer lists, in order, the user's fast on each posted date |
| FastRoutes.RecordAllAppendsOwnRows | src/routes/fast.routes.ts:78-87 | existing rows are untouched; added rows are the user's, on posted dates |
| FastRoutes.RecordAllCovers | src/routes/fast.routes.ts:70-91 | afterwards every posted date is recorded for the user |
| FastRoutes.RecordAllOfRecorded | src/routes/fast.routes.ts:78 | posting dates already recorded changes nothing |
| FastRoutes.RecordAllIdempotent | src/routes/fast.routes.ts:67-97 | posting the same dates twice adds nothing the second time |
| FastRoutes.RecordAllKeepsOnePerDate | src/routes/fast.routes.ts:72-89 | at most one fast per (user, date) is preserved |
| FastRoutes.PostFasts | src/routes/fast.routes.ts:67-97 | the loop leaves the fasts table and answer of `RecordAll`; ids stay dense; no other table changes |
| FastRoutes.RecordAllStep | src/routes/fast.routes.ts:70-91 | one more date extends the table and answer of `RecordAll` by that date's record |
| DrizzleHelpers.Keys | src/helpers/drizzle.helpers.ts:17-23 | the keys are distinct, no more than the rows, and include every row's key |
| DrizzleHelpers.KeysOfRows | src/helpers/drizzle.helpers.ts:18-20 | every key is some row's key |
| DrizzleHelpers.KeysOfOneKey | src/helpers/drizzle.helpers.ts:19-20 | rows sharing one key have that key alone |
| DrizzleHelpers.FirstOne | src/helpers/drizzle.helpers.ts:20 | the stored `one` value has the group's key |
| DrizzleHelpers.GroupsOf | src/helpers/drizzle.helpers.ts:25 | one group per listed key, in that order, each headed by a value with that key |
| DrizzleHelpers.TakeKey | src/helpers/drizzle.helpers.ts:19-20 | a row with a new key adds that key with its row's `one`, and a known key keeps its entry |
| DrizzleHelpers.TakeValue | src/helpers/drizzle.helpers.ts:22 | a non-null `many` value is appended to its key's group only |
| DrizzleHelpers.OwnKeysOrder | src/helpers/drizzle.helpers.ts:25 | the keys are a reordering, with array indices first and ascending, then the other keys in insertion order |
| DrizzleHelpers.PlainKeysKeepOrder | src/helpers/drizzle.helpers.ts:25 | without array-index keys, `Object.values` keeps insertion order |
| DrizzleHelpers.AggregateOneToMany | src/helpers/drizzle.helpers.ts:5-26 | the loop over a keyed table, listed in own-key order, yields `Aggregate` |
| DrizzleHelpers.OneGroupPerKeyIn | src/helpers/drizzle.helpers.ts:17-23 | for any distinct listing of the keys: no two groups share a key, every row's key has a group, no more groups than rows |
| DrizzleHelpers.Collected | src/helpers/drizzle.helpers.ts:22 | a key collects at most one value per row (exact count: `CollectedLength`; contents: `GroupContents`) |
| DrizzleHelpers.CollectedLength | src/helpers/drizzle.helpers.ts:22 | a key collects exactly as many values as it has rows with a non-null `many` |
| DrizzleHelpers.Aggregate | src/helpers/drizzle.helpers.ts:17-25 | one group per distinct key, the j-th group headed by a `one` value whose key is the j-th key in `Object.values` order |
| DrizzleHelpers.OneGroupPerKey | src/helpers/drizzle.helpers.ts:5-26 | the result has exactly one group per distinct property key |
| DrizzleHelpers.GroupContents | src/helpers/drizzle.helpers.ts:18-23 | each group holds its key's first-seen `one` value and exactly that key's non-null values in input order; an all-null key has an empty list |
| DrizzleHelpers.FirstOneIsFirst | src/helpers/drizzle.helpers.ts:20 | the stored `one` value is the earliest row's with that key |
| DrizzleHelpers.AggregateOrder | src/helpers/drizzle.helpers.ts:25 | array-index groups come first, in ascending order; with no such key, groups are in first-seen order |
| DrizzleHelpers.CollectedEmpty | src/helpers/drizzle.helpers.ts:22 | a key whose rows are all null collects nothing |
| DrizzleHelpers.GroupItemsCount | src/helpers/drizzle.helpers.ts:22 | distinct keys' groups hold as many items as those keys have non-null rows |
| DrizzleHelpers.AggregateItemCount | src/helpers/drizzle.helpers.ts:18-25 | every non-null `many` value is collected exactly once overall |
| DrizzleHelpers.OneKeyOneGroup | src/helpers/drizzle.helpers.ts:19-20 | rows sharing a non-index key make a single group |
| DrizzleHelpers.PropertyKey | src/helpers/drizzle.helpers.ts:19-20 | a non-negative number keys by all-digit text that reads back as the number (so distinct ids keep distinct keys); a negative one by "-" and its magnitude's text; every object by "[object Object]" |
| DrizzleHelpers.ObjectKeysCollapse | src/helpers/drizzle.helpers.ts:19-20 | as written, two rows with different object `one` values end up in a single group |
| DrizzleHelpers.OneGroupPerValue | src/helpers/drizzle.helpers.ts:17-25 | grouping by value: distinct `one` values, every row's value heads a group, every non-null value counted once |

## Left out

- Token cryptography: RS256 signatures, the `iat`/`exp` stamping and the
  clock behind expiry are not modelled. The library's behaviour is the
  hypothesis `Jwt.CodecRoundTrips`. It speaks only of RS256 tokens from
  payloads that set no `exp` or `nbf` of their own, the only tokens the core
  creates; what the library does with other algorithms or with such claims
  (for example "jwt not active") is not modelled.
- Error bodies: what `getCatchMessage` puts into a 401 body is not modelled.
  The model keeps the status and the reason for the rejection.
- `src/helpers/schema.helpers.ts` is not part of this model. `dbIdSchema` is
  modelled as "a positive integer".
- The `omit` helper is not part of this model. The login payload is written
  out as every user column except the password.
- Storage failures: constraint violations and storage errors are not
  modelled. Every insert and update succeeds.
- The request contracts: validation of request bodies (the 400 answers) is
  assumed done. Handlers receive validated values, except for the `dates`
  query, which is modelled.
- `validatedHandler` and the ts-rest wiring are not modelled. Every protected
  handler takes the identity `ValidateAuth` stored.
- Errors thrown by `next()` itself are not modelled.
- Every response body is modelled as the full rows: the GET listings, the rows
  answered by the prayer and fast POSTs (`UpsertAll`, `RecordAll`) and the
  session row behind login. Whether ts-rest strips `id` and `userId` through
  the response schemas is not modelled.
- `Promise.all`: prayer and fast POST items run concurrently in the source and
  one after another here. Interleavings of the lookups and inserts, which can
  insert duplicates, are not modelled.
- Timestamps: `created_at`/`updated_at` of sessions are not modelled. Dates are
  integer timestamps at storage precision. `sod` stands for dayjs
  `startOf("day")` in the server's time zone.
- GET /prayer's `date` query is taken as a timestamp. How the query text
  reaches `z.date()` is not modelled.
- `inArray` with an empty list cannot occur: a split always yields at least one
  piece.
- The duas and user routes are not part of the core modelled here.
- `aggregateOneToMany` has three details that are not modelled:
  - prototype keys (`"__proto__"`, `"constructor"`, ...), for which the
    source's truthiness test reads an inherited property;
  - `undefined` `many` values, which `!== null` lets through;
  - the object spread `{...r.one, [many]: r.many}`, which is modelled as the
    pair `Group(one, many)`.
- DrizzleHelpers.GroupByValue: the intended grouping compares `one` values by
  Dafny equality, not by JavaScript reference identity.
- Tables.Update: its own contract states only that the row count is kept. What
  the logout update does to each row is proved in
  `SessionRoutes.LogoutTouchesOneRow`.
- PrayerRoutes.UpsertOne: its own contract states only the answer's length and
  that the table grows by at most one row. Its effect on every row is
  `PrayerRoutes.UpsertOneEffect`.

## Findings

| source | as written | input that shows it | evidently intended | confidence | as-written member | corrected member |
|---|---|---|---|---|---|---|
| src/routes/prayer.routes.ts:94 | the upsert stores `prayerRequest.date` unchanged. Its lookup (line 82) and GET /prayer (line 61) compare against `startOf("day")` | POST `[{name:"Fajr", method:"Jamat", date:<today 10:00>}]` twice, then GET /prayer with no date (today): two Fajr rows for today, and the listing shows neither | store `dayjs(date).startOf("day")` on insert and update (line 94 and line 101) | medium, not executed | PrayerRoutes.UntruncatedDateAsWritten | PrayerRoutes.UpsertAtDayStartKeepsOnePerDay |
| src/schema.ts:17 | POST /user (src/routes/user.routes.ts:28) validates its body with `createInsertSchema(users)`, which makes the primary key an optional client-chosen number, and inserts it as given | POST /user `{id: 0, name:"a", email:"a@b.c", password:"p"}`, then POST /session with that address and password: 201 with two tokens, and every protected request with them answers 401, since the claims schema demands a positive id | ids assigned by the database, i.e. `id` omitted from the insert schema, so every user id is a positive rowid | medium, not executed | SessionRoutes.NonPositiveIdTokensNeverValid | SessionRoutes.LoginTokensVerify |
| src/helpers/drizzle.helpers.ts:19-20 | the groups are keyed by `String(row[one])`, so every object-valued `one` becomes the key "[object Object]" | rows `[{user:{id:1}, pet:"a"}, {user:{id:2}, pet:"b"}]` with `one = "user"`: one group, headed by user 1, with both pets | one group per distinct `one` value | high, not executed | DrizzleHelpers.ObjectKeysCollapse | DrizzleHelpers.OneGroupPerValue |
