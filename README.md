# A verified model of the event platform's authentication core

This project is a Dafny model of the backend of an event-management platform (NestJS, Prisma, MinIO). It covers the two-token authentication logic and the small pure rules around events and uploads.

**Tokens.** A login issues an access token (signed with `JWT_SECRET`, fifteen minutes by default). Alongside it comes a refresh token. The refresh token is signed with `JWT_REFRESH_SECRET`, which falls back to `JWT_SECRET + "_refresh"`. It lives seven days by default and carries the `isRefreshToken` marker.

**Renewal.** A middleware runs before every route and renews an expired access token silently. It does so when the request also carries a genuine refresh token in `x-refresh-token`:
- it rewrites the request's `Authorization` header in place;
- it announces the new pair in two response headers;
- in every case it hands the request on exactly once.

The `/auth/refresh` endpoint and the `jwt-refresh` passport strategy accept the same refresh-token strings. They differ in where they look for the token: the strategy reads `x-refresh-token` first and falls back to the body's `refreshToken`, while the endpoint (`src/modules/auth/auth.controller.ts:74-75`) reads only the body and ignores the header. The endpoint maps failures to two messages, "expirado" or "inválido".

**Other auth operations.** Cookies carry the tokens with fixed attributes. Their lifetime comes from a `<digits><s|m|h|d>` parser. Registration checks the e-mail before the IEEE membership number. A password reset grants a one-hour token.

**Events and uploads.**
- Events get a slug and accent-free, lower-case search columns.
- `findAll` turns a search into an AND of OR-clauses over those columns and pages its result.
- A published event notifies every user but its creator.
- Uploads accept image MIME types up to 5 MiB and are named `<time>-<random>-<original>`.
- A migration script sorts old files into buckets by name prefix.

## Layout

- `wrappers.dfy` (`Wrappers`) — `Option` and `Result`, JavaScript's `||` on an optional string, and truthiness.
- `strings.dfy` (`Strings`) — `startsWith`, `endsWith`, `includes`, `split`/`join` on one character, and decimal digits, with the split/join round trip.
- `unicode.dfy` (`Unicode`) — `toLowerCase`, `normalize('NFD')` and removal of combining marks over ASCII and the accented Latin-1 letters, plus the `\s` and `\w` classes.
- `http.dfy` (`Http`) — Express request, response and `next` as objects. `next` records the headers of each request it is handed.
- `auth_config.dfy` (`AuthConfig`) — the environment and the settings derived from it.
- `token_codec.dfy` (`TokenCodec`) — a concrete stand-in for `jsonwebtoken`:
  - a token is its payload, secret and expiry, written as one space-free string;
  - `Verify` yields `Verified(payload)`, `Expired` or `Invalid`.
- `token_cookies.dfy` (`TokenCookies`) — `parseExpiration` and `TokenCookiesHelper`.
- `auth_service.dfy` (`Auth`) — `AuthService`, with the user table as a `UserStore` object.
- `token_refresh.dfy` (`TokenRefresh`) — `TokenRefreshMiddleware`.
- `jwt_refresh_strategy.dfy` (`JwtRefreshStrategy`) — the refresh-token strategy.
- `events_service.dfy` (`Events`) — the pure rules of `EventsService`.
- `migrate_uploads.dfy` (`MigrateUploads`) — `detectBucket`.
- `uploads.dfy` (`Uploads`) — the multipart filter and limit, and the pure parts of `UploadsService`.

Clocks, randomness, bcrypt and the database are parameters or values. Specifically:
- token times are seconds and reset times milliseconds;
- `compare` is a function argument;
- hashes, the reset token and the random part of an object name are arguments;
- the user table is a sequence;
- an event row is a datatype.

**Expiry semantics.** `Verify` reports expiry when `now >= exp`, as `jsonwebtoken` does.

## Model

| member | source | states |
|---|---|---|
| AuthConfig.DerivedRefreshSecret | src/modules/auth/auth.service.ts:28-29 | without a usable `JWT_REFRESH_SECRET` the refresh secret is `JWT_SECRET + "_refresh"`, never equal to the access secret |
| AuthConfig.ConfigDefaults | src/modules/auth/auth.service.ts:29-31 | configured values are used verbatim; unset or empty ones give `"15m"` and `"7d"` |
| TokenCodec.DecodeEncode | src/modules/auth/auth.service.ts:61-84 | a signed token decodes back to exactly its payload, secret and expiry |
| TokenCodec.VerifySignedBeforeExpiry | src/modules/auth/middleware/token-refresh.middleware.ts:31 | under its own secret a token verifies to its own payload until it expires |
| TokenCodec.VerifySignedAfterExpiry | src/modules/auth/middleware/token-refresh.middleware.ts:33-34 | once expired, a genuine token fails as expired, never as invalid |
| TokenCodec.VerifyOtherSecret | src/modules/auth/middleware/token-refresh.middleware.ts:39-41 | under any other secret a token is invalid, expired or not |
| TokenCodec.VerifyNeedsSecret | src/modules/auth/middleware/token-refresh.middleware.ts:39-41 | text that verifies or expires under a secret is a token signed with that secret; it expires exactly when `now >= exp` |
| TokenCookies.ParseSpelledDuration | src/modules/auth/helpers/token-cookies.helper.ts:42-56 | `<n><unit>` matches the pattern and parses to n times 1000, 60000, 3600000 or 86400000 |
| TokenCookies.ParseFallbacks | src/modules/auth/helpers/token-cookies.helper.ts:42-43 | the empty string, a bare number, an upper-case unit, a fraction and a bare unit all give 900000 |
| TokenCookies.ParseDefaults | src/modules/auth/helpers/token-cookies.helper.ts:13-14 | `"15m"` and `"7d"` match the pattern and parse to 900000 and 604800000 |
| TokenCookies.ParseMonotonic | src/modules/auth/helpers/token-cookies.helper.ts:45-56 | for a fixed unit the parsed lifetime grows strictly with the number |
| TokenCookies.ParseWholeSeconds | src/modules/auth/helpers/token-cookies.helper.ts:41-60 | every parsed lifetime is a whole number of seconds |
| TokenCookies.TokenCookiesHelper.constructor | src/modules/auth/helpers/token-cookies.helper.ts:11-15 | `isProduction` is `NODE_ENV === 'production'`; both lifetimes fall back to the defaults |
| TokenCookies.TokenCookiesHelper.SetTokenCookies | src/modules/auth/helpers/token-cookies.helper.ts:17-34 | the queued `Set-Cookie` directives gain `access_token` and `refresh_token` and no other cookie changes; no header other than `Set-Cookie` changes |
| TokenCookies.TokenCookiesHelper.ClearTokenCookies | src/modules/auth/helpers/token-cookies.helper.ts:36-39 | both names are cleared on path `/`, no other cookie changes, and no header other than `Set-Cookie` changes |
| TokenCookies.SetTokenCookiesAttributes | src/modules/auth/helpers/token-cookies.helper.ts:12-34 | exactly the two cookies are added, both `httpOnly`, `sameSite` `lax`, path `/`, `secure` iff production; each `maxAge` is its own lifetime parsed (900000 and 604800000 by default) |
| Auth.GenerateTokensVerify | src/modules/auth/auth.service.ts:60-87 | the access token verifies under the access secret to the claims without the marker, the refresh token under the refresh secret to the claims with it, each until its own lifetime ends; with distinct secrets neither verifies under the other's |
| Auth.DefaultLifetimes | src/modules/auth/auth.service.ts:30-31 | by default access tokens live 900 s and refresh tokens 604800 s, and the defaults are `<digits><unit>` spellings; for any lifetime so spelled, each cookie's `maxAge` is its token's lifetime in milliseconds |
| Auth.RefreshTokensOutcomes | src/modules/auth/auth.service.ts:89-118 | success iff the token verifies under the refresh secret and carries the marker, with a pair for its claims; otherwise `Unauthorized`, "Refresh token expirado" exactly for an expired token and "Refresh token inválido" for every other failure, the missing marker included |
| Auth.RefreshIssuedToken | src/modules/auth/auth.service.ts:92-111 | an issued refresh token is exchanged for a new pair with the same claims until it expires, then refused as expired |
| Auth.AccessTokenNeverRefreshes | src/modules/auth/auth.service.ts:92-99 | an access token is never accepted as a refresh token, even when both secrets coincide |
| Auth.FindByEmail | src/modules/auth/auth.service.ts:35 | the result is a user with that e-mail; none means no user has it |
| Auth.FindByIeeeNumber | src/modules/auth/auth.service.ts:128 | the result is a user with that IEEE number; none means no user has it |
| Auth.FindByResetToken | src/modules/auth/auth.service.ts:169 | the result is a user holding that reset token; none means no user holds it |
| Auth.ValidateUser | src/modules/auth/auth.service.ts:34-41 | a result exactly when the e-mail's user exists and the password compares; it is that user without its password; absent user and wrong password both give none |
| Auth.LoginIdentifiesUser | src/modules/auth/auth.service.ts:43-58 | the response's user is the one logged in, its access token verifies to `{sub: id, email, role}` for its configured lifetime (900 s when `JWT_EXPIRATION` is unset), and its refresh token renews those claims |
| Auth.Register | src/modules/auth/auth.service.ts:120-147 | a taken e-mail gives the e-mail conflict (checked first), then a taken IEEE number the number conflict, both leaving the table unchanged; otherwise the user is appended with the hashed password and logged in; the table keeps e-mails and IEEE numbers unique |
| Auth.RequestPasswordReset | src/modules/auth/auth.service.ts:149-166 | the same message whether or not the e-mail exists; an unknown e-mail changes nothing, a known one gets the token with an expiry one hour on |
| Auth.ResetPassword | src/modules/auth/auth.service.ts:168-179 | an unknown token, a missing expiry or an expiry earlier than now gives the bad-request error and changes nothing; otherwise that user's password becomes the new hash |
| Auth.ResetWindowHolds | src/modules/auth/auth.service.ts:158-173 | a granted reset is accepted iff now is at most one hour after the grant; no expiry or no user is always refused |
| Auth.GrantKeepsUsersUnique | src/modules/auth/auth.service.ts:157-160 | granting a reset keeps e-mails and IEEE numbers unique, and the token then finds a user |
| TokenRefresh.BearerTokenOf | src/modules/auth/middleware/token-refresh.middleware.ts:27-28 | `"Bearer " + token` passes the prefix test and `split(' ')[1]` gives the token back |
| TokenRefresh.TokenRefreshMiddleware.constructor | src/modules/auth/middleware/token-refresh.middleware.ts:13-21 | the middleware's settings are the shared derivation from the environment |
| TokenRefresh.TokenRefreshMiddleware.GenerateTokens | src/modules/auth/middleware/token-refresh.middleware.ts:62-89 | the new access token decodes to the claims without the marker under the access secret and lifetime, the refresh token to the same claims with it under the refresh ones |
| TokenRefresh.TokenRefreshMiddleware.Use | src/modules/auth/middleware/token-refresh.middleware.ts:23-60 | the request headers become the decision's forwarded headers, the response gains exactly the two announcement headers on a refresh, cookies are untouched, and `next` is called exactly once with the final request |
| TokenRefresh.RefreshExactlyWhenExpiredAndGenuine | src/modules/auth/middleware/token-refresh.middleware.ts:27-49 | a refresh happens iff the bearer token is expired (not otherwise invalid), `x-refresh-token` is non-empty, verifies under the refresh secret and carries the marker; the pair is minted for its claims |
| TokenRefresh.InvalidAccessNeverRefreshes | src/modules/auth/middleware/token-refresh.middleware.ts:33-34 | an access token failing for any reason but expiry passes through unrefreshed, whatever refresh header is added |
| TokenRefresh.ClientWithIssuedPair | src/modules/auth/middleware/token-refresh.middleware.ts:30-55 | for an issued pair: valid access passes, expired access with live refresh token renews for the same claims and the rewritten header verifies to them, both expired refreshes nothing |
| TokenRefresh.AccessTokenIsNoRefreshToken | src/modules/auth/middleware/token-refresh.middleware.ts:39-43 | an access token sent as the refresh token never triggers a refresh |
| TokenRefresh.AgreesWithRefreshEndpoint | src/modules/auth/middleware/token-refresh.middleware.ts:36-57 | for an expired access token the middleware refreshes iff the refresh endpoint would succeed, with the same pair |
| TokenRefresh.OnlyAuthorizationRewritten | src/modules/auth/middleware/token-refresh.middleware.ts:51-53 | only the `Authorization` request header may change and only on a refresh; the response changes only by the two announcement headers |
| JwtRefreshStrategy.ExtractRefreshToken | src/modules/auth/strategies/jwt-refresh.strategy.ts:12-17 | a truthy header wins, otherwise the body's field; a missing request gives none |
| JwtRefreshStrategy.SecretMatchesIssuer | src/modules/auth/strategies/jwt-refresh.strategy.ts:21 | the strategy's secret is the one `AuthService` signs refresh tokens with, `JWT_SECRET + '_refresh'` by default |
| JwtRefreshStrategy.Validate | src/modules/auth/strategies/jwt-refresh.strategy.ts:25-34 | none iff the marker is missing, otherwise `{id: sub, email, role}` |
| JwtRefreshStrategy.AgreesWithRefreshTokens | src/modules/auth/strategies/jwt-refresh.strategy.ts:11-33 | on the token string it extracts, the strategy accepts iff the refresh endpoint's service call would accept that string (expired ones refused), and its user is the identity the endpoint renews; it says nothing about requests whose token sits only in the header, which the endpoint ignores |
| JwtRefreshStrategy.AcceptsIssuedRefreshToken | src/modules/auth/strategies/jwt-refresh.strategy.ts:11-33 | an issued refresh token in the header is accepted, with its user, until it expires |
| Unicode.FoldIdempotent | src/modules/events/events.service.ts:19-22 | lower-casing, decomposing and dropping marks twice is doing it once |
| Unicode.FoldKeepsContains | src/modules/events/events.service.ts:19-22 | a word contained in a text is still contained after both are folded |
| Events.NormalizeTextFolds | src/modules/events/events.service.ts:17-23 | a falsy text gives `''`; the result is folded (lower-case, no marks), holds a space exactly when the text does, and normalising it again changes nothing |
| Events.SlugShape | src/modules/events/events.service.ts:304-313 | a slug holds only `a-z`, `0-9`, `_` and `-`, never two `-` in a row, and `trim` leaves it unchanged |
| Events.SlugIdempotent | src/modules/events/events.service.ts:304-313 | the slug of a slug is itself |
| Events.SlugKeepsLeadingHyphen | src/modules/events/events.service.ts:310-312 | a title beginning with a space has a slug beginning with `-` |
| Events.SlugKeepsTrailingHyphen | src/modules/events/events.service.ts:310-312 | a title ending with a space has a slug ending with `-` |
| Events.PagingDefaults | src/modules/events/events.service.ts:79-81 | a missing or zero page is 1 and limit 10, the limit in force is never 0, and consecutive pages are one limit apart |
| Events.TotalPagesCeiling | src/modules/events/events.service.ts:153 | `totalPages` is `total / limit` rounded up: `(tp-1)*limit < total <= tp*limit`, zero only for no rows |
| Events.FindAllMeta | src/modules/events/events.service.ts:147-155 | meta echoes total, page and limit, and its page count covers the total |
| Events.LastPageHoldsRows | src/modules/events/events.service.ts:81-153 | the last page starts inside the result and the next one past its end |
| Events.SearchWordsShape | src/modules/events/events.service.ts:93-95 | the words are the non-empty space-free pieces of the normalised search, none for a falsy search |
| Events.ClausesHold | src/modules/events/events.service.ts:97-102 | the AND of the per-word OR-clauses holds iff every word is in the normalised title or description |
| Events.BuildWhere | src/modules/events/events.service.ts:83-103 | category is set only when truthy, status only when given, the AND only for a truthy search; a row matches iff it satisfies every supplied filter |
| Events.SearchFindsTitle | src/modules/events/events.service.ts:93-102 | searching for a phrase the title contains once both are folded (any case, with or without accents) finds every search word in that title's normalised form |
| Events.CreateDataShape | src/modules/events/events.service.ts:25-36 | a new event is consistently indexed, has a well-formed slug and its creator, and is DRAFT unless a status is given |
| Events.Recipients | src/modules/events/events.service.ts:49-55 | a user is notified iff the event is published and the user is not its creator |
| Events.NotifiesOthersOnPublish | src/modules/events/events.service.ts:49-66 | no notification unless published; then every other user gets one with the fixed title, type and message, and the creator none |
| Events.BuildUpdateData | src/modules/events/events.service.ts:267-277 | the update carries the DTO's fields plus a normalised column exactly for a truthy title or description |
| Events.UpdateKeepsConsistent | src/modules/events/events.service.ts:268-277 | an update that omits a field or gives it a non-empty value keeps the index consistent; the slug is never recomputed |
| Events.EmptyTitleLeavesStaleIndex | src/modules/events/events.service.ts:270-272 | setting the title to `''` stores it but keeps the old normalised title |
| MigrateUploads.DetectBucketClassifies | migrate-uploads-to-minio.ts:20-28 | the result is one of the four buckets; each prefix bucket is chosen iff its prefix starts the lower-cased name, `general` iff none does |
| MigrateUploads.DetectBucketIgnoresCase | migrate-uploads-to-minio.ts:21 | a name and its lower-cased form go to the same bucket |
| MigrateUploads.PrefixOnlyAtStart | migrate-uploads-to-minio.ts:23-25 | `x_avatar_1.png` is `general` while `AVATAR_1.PNG` is `avatars` |
| Uploads.ImageSuffixes | src/modules/uploads/uploads.module.ts:18 | the pattern's alternatives are exactly the five image subtypes after a `/` at the end |
| Uploads.FileFilter | src/modules/uploads/uploads.module.ts:17-22 | accepted iff the MIME type ends with `/` and an image subtype, then `(null, true)`; otherwise the error message and `false` |
| Uploads.FileFilterExamples | src/modules/uploads/uploads.module.ts:18 | `image/PNG` is rejected and `application/png` accepted |
| Uploads.SizeLimit | src/modules/uploads/uploads.module.ts:15 | the limit is 5242880 bytes |
| Uploads.FileUrlParts | src/modules/uploads/uploads.service.ts:13-16 | a configured endpoint is used verbatim, `http://localhost:9000` otherwise; bucket and object name are the URL's last two segments |
| Uploads.UploadImageTarget | src/modules/uploads/uploads.service.ts:19-21 | every upload goes to bucket `events` |
| Uploads.ObjectNameParts | src/modules/uploads/uploads.service.ts:21 | the object name ends with `-` and the original name, and its first `-`-separated piece is the decimal upload time |

## Left out

- Real JWT cryptography (HMAC, base64, the JSON header) and bcrypt hashing. Tokens are the symbolic codec above, and password comparison is a function argument.
- The `ms` duration library that `jsonwebtoken` applies to `expiresIn`. Token lifetimes reuse `parseExpiration`, which agrees with it on `<digits><s|m|h|d>` and on the defaults.
- Auth.Lifetime: outside `<digits><s|m|h|d>` the token lifetime is read as `parseExpiration` reads it (fifteen minutes). `ms` reads those spellings differently: `"2H"` is 7200 s, `"1.5h"` is 5400 s, `"2 days"` is 172800 s and `"900"` is 0 s. For a spelling `ms` rejects, such as `"abc"`, `sign` throws, so login fails, the refresh endpoint answers "Refresh token inválido" and the middleware passes the request on unrefreshed. The model signs with 900 s instead.
- Auth.DefaultLifetimes: the cookie/token agreement is stated only for `<digits><s|m|h|d>` spellings, the defaults included. For the other spellings above, the source's cookie `maxAge` (900000 ms) and token lifetime disagree.
- `Set-Cookie` response headers are kept as a map from cookie name to the last directive queued for it, apart from the headers `setHeader` sets. Header order and repeated directives for one name are not modelled.
- A missing or empty `JWT_SECRET` is not modelled. A missing one would be stringified as `"undefined_refresh"` in the derived secret. With an empty one `jsonwebtoken` refuses to sign ("secretOrPrivateKey must have a value") and rejects every token; the model takes the secret as a string and signs and verifies with `""` like any other.
- Mail delivery after registration and reset requests, and its failures.
- What `UsersService` does beyond the table updates shown.
- `Auth.ResetPassword`: the source hands the new password to `usersService.resetPassword`, whose body is not part of this model, so whether it clears `resetPasswordToken` and `resetPasswordExpires` is unknown. The model keeps both, so a reset token stays usable until its hour is up.
- Database-assigned user ids and roles, and the default user role; these are parameters.
- Prisma queries themselves: ordering, `skip`/`take` execution and the included relations. These are represented only by the `where` object, the paging numbers and an event row.
- The rewriting of `bannerUrl` and image URLs through MinIO presigned URLs in `findAll`, `findOne` and `findBySlug`. This is network I/O.
- `findOne`, `findBySlug` and `remove`. They are queries whose only rule is the not-found exception.
- Unicode beyond ASCII and the accented Latin-1 letters. Full `toLowerCase`, `normalize('NFD')` and the complete `\s` tables are replaced by a small table, and other characters pass through unchanged.
- `Events.Page`, `Events.Limit`: the filters are taken as numbers already. The query strings they come from are not modelled: `Number()` of a non-numeric page or limit (NaN) is left out, and so is a string `"0"`, which is truthy and gives page 0 (skipping `-limit` rows) or limit 0 (`Math.ceil(total / 0)` is `Infinity` or `NaN`). Floating-point rounding of very large totals in `Math.ceil(total / limit)` is left out too.
- `TokenCookies.ParseExpiration`, `TokenCookies.ParseMonotonic`, `TokenCookies.ParseWholeSeconds`, `TokenCookies.ParseSpelledDuration`, `Events.Skip`: the source computes with IEEE doubles. `parseInt` and the products `value * 1000` … `value * 24 * 60 * 60 * 1000` round once a number passes 2^53 (16 or more digits), and so does `(page - 1) * limit`. For example, `"9007199254740993s"` and `"9007199254740992s"` give the same value. The model computes all of these exactly on unbounded integers, so strict growth, "n times the unit" and "a whole number of seconds" are proved only for the exact values.
- Events.FindAllMeta: when no filters object is passed at all, the model uses the same defaults as an empty one. This matches the optional chaining in the source.
- The migration script's file-system walk, uploads and report, and the MinIO client in the storage module.
- The promise returned by `uploadImage` (a presigned URL from MinIO). Only the bucket and object name are modelled.
- Controllers, modules and dependency-injection wiring. In particular, the `/auth/refresh` route reads the token only from the body and is not guarded by the `jwt-refresh` strategy.
