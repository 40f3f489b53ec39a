# JWT token lifecycle — a Dafny model

This project models the token-lifecycle core of a Spring service that issues,
validates and rotates pairs of signed, expiring JSON Web Tokens (an access
token and a refresh token per subject, the subject being a `uniqueId`).

- **Current-state table** (`TokenDetails`): one row per `uniqueId` with the
  latest pair, `createdAt` and `updatedAt`. `saveTokenDetails` upserts it by
  read-modify-write. In the model it is a `map<string, TokenDetails>`, and
  `Keyed` says each row is filed under its own `uniqueId`.
- **Transaction log** (`TransacTokenDetails`): append-only, one record per
  issuance. In the model it is a `seq<TransacTokenDetails>`.
- **Issuance** (`generateToken`): mints both tokens, saves the current state,
  appends to the log, and returns the pair.
- **Validation** (`validateToken`): true exactly when the presented access token
  is the one on record for the subject AND it verifies under the secret and has
  not expired. Any exception on the way gives false.
- **Rotation** (`regenerateTokens`): re-issues only when the presented ACCESS
  token passes that same check. Otherwise it throws and changes nothing.

Modules follow the source packages:

- `Entities`: tokens, rows, requests, the pair, exceptions and the fixed
  message texts.
- `TokenDetailsRepository`: the finder queries as map lookups.
- `JwtUtil`: generation and validation as functions of a store snapshot, the
  clock reading `now` and the request.
- `Service`: specification functions (`Upsert`, `Issue`, `Regenerate`), plus the
  class `JwtServiceImpl`. The class holds both stores as fields. Its methods
  perform the source's steps and are proved equal to those functions.
- `Lifecycle`: properties across calls, and invariants of every sequence of
  calls, proved by induction.

Tokens are abstract. A token is `Signed(subject, key, issuedAt, expiresAt)` or
`Opaque(text)`, where `Opaque` covers the fixed failure text and any garbage a
caller presents. `Parse` checks things in this order: the key (`KeyRejected`),
then the structure (`Malformed`), then the signature (`SignatureInvalid`), and
last the expiry. A token is accepted while `now < exp`, following section 4.1.4
of RFC 7519. Persistence faults are boolean parameters:

- `lookupFault`: the finder query throws.
- `storeFault`: reading or saving the current-state row throws.
- `logFault`: saving the transaction record throws.

The intended design differs from the code in three places. The model follows
the code:

- A best-effort audit log would let issuance succeed when appending the record
  fails. In the code, `saveTransactionTokenDetails` rethrows and `generateToken`
  turns that into `CustomJwtException`. By then the current-state row has
  already been saved, and it stays saved (`Service.Issue`). A rotation that fails
  at the log save therefore still installs the new pair, and the access token
  the caller presented stops validating, even though the caller is told
  "Error refreshing token" (`Lifecycle.RegenerateLogFaultStillRotates`).
- A design with a failure taxonomy would tell malformed, badly signed and
  expired tokens apart. The code tells apart only "expired" (false from
  `isTokenExpired`) and "anything else" (an exception). `validateToken`
  collapses every failure into `false`. `regenerateTokens` collapses every
  failure into the single message "Error refreshing token".
- Rotation is meant to make the old access token fail validation. That holds
  only when the new token differs from the old one. In the model a token is
  re-issued identically only at the same millisecond `now`, with the same
  lifetime and secret (`Lifecycle.RegenerateRotates`). The signing library
  stores `iat` and `exp` in whole seconds. So the library gives the same
  string for any re-issue within the same second, with the same lifetime and
  secret. For example, lifetime 1000 ms at 1000 ms and at 1500 ms gives
  `iat` 1 s and `exp` 2 s both times. The model's "different instant"
  (`t1 != t2` in `Lifecycle.SupersededTokenRejected`, `issuedAt != now` in
  `Lifecycle.RegenerateRotates`) corresponds to "a different second" in the
  library.

Two names the code uses have no definition in the modelled files:

- `regenerateTokens` calls `jwtUtil.isValidAccessToken`, which `JwtUtil` does not
  define. It is modelled as the same two-part check as `validateToken`.
- The controller calls `jwtService.validateToken`, which the `JwtService`
  interface does not declare. The class has one unified contract: issue
  (`GenerateToken`), validate (`ValidateToken`) and regenerate
  (`RegenerateTokens`).

## Model

| member | source | states |
|---|---|---|
| `TokenDetailsRepository.FindByUniqueId` | src/main/java/com/tm/jsonwebtoken/repository/TokenDetailsRepository.java:9 | a row is returned iff one exists for the id; it is that subject's row, and when none is returned no row carries the id |
| `TokenDetailsRepository.FindByUniqueIdAndAccessToken` | src/main/java/com/tm/jsonwebtoken/repository/TokenDetailsRepository.java:11 | non-empty iff the row for the id stores exactly that access token; when empty no row matches both columns |
| `TokenDetailsRepository.FindByUniqueIdAndRefreshToken` | src/main/java/com/tm/jsonwebtoken/repository/TokenDetailsRepository.java:13 | non-empty iff the row for the id stores exactly that refresh token; when empty no row matches both columns |
| `TokenDetailsRepository.Save` | src/main/java/com/tm/jsonwebtoken/service/impl/JwtServiceImpl.java:85-95 | the saved row is the one filed under its id, no other row changes, and the one-row-per-id invariant is kept |
| `JwtUtil.GenerateAccessToken` | src/main/java/com/tm/jsonwebtoken/util/JwtUtil.java:42-58 | under the request secret the token parses back to subject = uniqueId, issuedAt = now, expiry = now + accessTokenTime, and is valid exactly before that expiry; no other secret verifies it; if signing fails, the fixed text "Unable to generate access token" is returned |
| `JwtUtil.GenerateRefreshToken` | src/main/java/com/tm/jsonwebtoken/util/JwtUtil.java:64-78 | as for the access token, with expiry now + refreshTokenTime and the text "Unable to generate refresh token" |
| `JwtUtil.IsValidUser` | src/main/java/com/tm/jsonwebtoken/util/JwtUtil.java:87-104 | true iff the token is the stored access token of the id; a failing query throws CustomJwtException "Unable to validate access token" |
| `JwtUtil.IsTokenExpired` | src/main/java/com/tm/jsonwebtoken/util/JwtUtil.java:111-121 | true iff the token is signed with the (usable) secret and now < exp; false iff signed with it and expired; every other token throws a parser exception |
| `JwtUtil.ValidateToken` | src/main/java/com/tm/jsonwebtoken/util/JwtUtil.java:127-140 | true iff the query works, the token is the one on record for the id, and it parses as valid (signed with the secret, now < exp); never throws |
| `JwtUtil.ValidateUserAndRefreshToken` | src/main/java/com/tm/jsonwebtoken/util/JwtUtil.java:146-162 | as written: true iff the presented refresh token equals the stored ACCESS token and parsing does not reject it, expired or not |
| `JwtUtil.ValidateRefreshToken` | src/main/java/com/tm/jsonwebtoken/util/JwtUtil.java:146-162 | corrected: true iff the presented refresh token is the stored refresh token and it parses as valid and unexpired |
| `Service.Upsert` | src/main/java/com/tm/jsonwebtoken/service/impl/JwtServiceImpl.java:78-96 | the id's row holds the new pair and updatedAt = now; createdAt is kept when the row existed, else now; a row is added only when none existed; other ids' rows unchanged; one row per id kept |
| `Service.Issue` | src/main/java/com/tm/jsonwebtoken/service/impl/JwtServiceImpl.java:48-64 | succeeds iff both saves do; a store failure changes nothing; otherwise the state is upserted before logging; one log record on success only; the returned pair is the stored pair; failures are CustomJwtException "Unable to get the token details!.." |
| `Service.Regenerate` | src/main/java/com/tm/jsonwebtoken/service/impl/JwtServiceImpl.java:127-155 | if the presented access token fails validation, no state changes; otherwise the effect is issuance with the request's id, secret and lifetimes; success iff valid and no faults; every failure is "Error refreshing token" |
| `Service.JwtServiceImpl.constructor` | src/main/java/com/tm/jsonwebtoken/service/impl/JwtServiceImpl.java:32-36 | the service starts over the injected table and log contents |
| `Service.JwtServiceImpl.SaveTokenDetails` | src/main/java/com/tm/jsonwebtoken/service/impl/JwtServiceImpl.java:74-101 | fails iff the store faults, then with "Unable to save/update the details!.." and no change; otherwise the table becomes `Upsert` of the old one; only the table may change |
| `Service.JwtServiceImpl.SaveTransactionTokenDetails` | src/main/java/com/tm/jsonwebtoken/service/impl/JwtServiceImpl.java:104-120 | fails iff the log faults, then with "Unable to save the details!.." and no change; otherwise exactly the record (id, pair, now, now) is appended; only the log may change |
| `Service.JwtServiceImpl.GenerateToken` | src/main/java/com/tm/jsonwebtoken/service/impl/JwtServiceImpl.java:48-64 | new state and result equal `Issue` of the old state; one row per id kept |
| `Service.JwtServiceImpl.ValidateToken` | src/main/java/com/tm/jsonwebtoken/controller/JwtController.java:59 | the service-level validation: true iff the token is on record for the id and signed with the usable secret and now < exp |
| `Service.JwtServiceImpl.RegenerateTokens` | src/main/java/com/tm/jsonwebtoken/service/impl/JwtServiceImpl.java:127-155 | new state and result equal `Regenerate` of the old state; one row per id kept |
| `Lifecycle.IssueThenValidate` | src/main/java/com/tm/jsonwebtoken/service/impl/JwtServiceImpl.java:52-58 | with a usable secret and a positive lifetime, the access token just issued validates at its issuing instant |
| `Lifecycle.ReissueUpdatesInPlace` | src/main/java/com/tm/jsonwebtoken/service/impl/JwtServiceImpl.java:78-85 | issuing twice for an id leaves one row for it; the second issuance adds no row; createdAt stays that of the first creation; updatedAt is the second time and not before createdAt; the log grew by two |
| `Lifecycle.SupersededTokenRejected` | src/main/java/com/tm/jsonwebtoken/util/JwtUtil.java:91-98 | an access token from an earlier issuance still parses as valid but is rejected after a later issuance for the id at another instant |
| `Lifecycle.StoredButExpiredRejected` | src/main/java/com/tm/jsonwebtoken/util/JwtUtil.java:111-120 | the token on record is rejected from its expiry instant on |
| `Lifecycle.RegenerateRotates` | src/main/java/com/tm/jsonwebtoken/service/impl/JwtServiceImpl.java:134-144 | rotation with a valid access token succeeds; the new access token validates; the presented one, unless issued at this same instant, is rejected at every later time |
| `Lifecycle.RegenerateLogFaultStillRotates` | src/main/java/com/tm/jsonwebtoken/service/impl/JwtServiceImpl.java:134-152 | a rotation with a valid access token whose log save fails throws "Error refreshing token", yet the stored pair is already the new one and the presented access token (if issued at another instant) no longer validates |
| `Lifecycle.RegenerateRefusedChangesNothing` | src/main/java/com/tm/jsonwebtoken/service/impl/JwtServiceImpl.java:132-152 | a rotation presenting an access token that is not on record throws "Error refreshing token" and leaves both stores unchanged, whatever the persistence faults |
| `Lifecycle.ExpiredAccessTokenScenario` | src/main/java/com/tm/jsonwebtoken/service/impl/JwtServiceImpl.java:127-155 | "u1"/"s3cr3t", lifetimes 1000/60000 ms: two distinct signed tokens; 1100 ms later validation is false and rotation throws with both stores unchanged |
| `Lifecycle.RefreshCheckAsWritten` | src/main/java/com/tm/jsonwebtoken/util/JwtUtil.java:146-162 | the as-written refresh check rejects the refresh token just issued and accepts the access token after it expired; the corrected check decides both the other way |
| `Lifecycle.RefreshCheckAcceptsIssuedRefreshToken` | src/main/java/com/tm/jsonwebtoken/util/JwtUtil.java:146-162 | the corrected check accepts the stored refresh token exactly until its expiry |
| `Lifecycle.RunKeyed` | src/main/java/com/tm/jsonwebtoken/repository/TokenDetailsRepository.java:9-13 | every sequence of issuances and rotations, with any faults, keeps at most one row per id |
| `Lifecycle.RunLogAppendOnly` | src/main/java/com/tm/jsonwebtoken/service/impl/JwtServiceImpl.java:104-120 | the old log is a prefix of the new one, which is at most one record per call longer |
| `Lifecycle.RunKeepsCreatedAt` | src/main/java/com/tm/jsonwebtoken/service/impl/JwtServiceImpl.java:79-85 | no row is ever removed and a row's createdAt never changes |
| `Lifecycle.RunRowsFromCalls` | src/main/java/com/tm/jsonwebtoken/service/impl/JwtServiceImpl.java:86-95 | a row exists afterwards only if it existed before or some call was about that id |
| `Lifecycle.RunOthersUntouched` | src/main/java/com/tm/jsonwebtoken/service/impl/JwtServiceImpl.java:78-96 | calls about other ids leave an id's row, or its absence, exactly as it was |
| `Lifecycle.RunChronological` | src/main/java/com/tm/jsonwebtoken/service/impl/JwtServiceImpl.java:83-93 | with a clock that never runs backwards, every row keeps updatedAt >= createdAt |
| `Lifecycle.RunSubjectBound` | src/main/java/com/tm/jsonwebtoken/util/JwtUtil.java:49-52 | every signed token stored for an id names that id as its subject |
| `Lifecycle.ValidatedTokenNamesSubject` | src/main/java/com/tm/jsonwebtoken/util/JwtUtil.java:127-140 | validation never reads the subject claim, yet in every reachable state a token that validates for an id names that id |

## Left out

- `HMAC-SHA512` signing and JWS compact serialisation (RFC 7515, RFC 7518 section 3.2). This is cryptography in a foreign library. A token verifies under a secret exactly when it was signed with that secret, and distinct claims give distinct strings.
- The library's key checks beyond "the secret has text" (base64 decoding, key length), and Unicode space separators in that text check. These come from the library and are not visible here.
- The library's second-granularity truncation of both `iat` and `exp`, its acceptance at exactly `exp`, and the separate clock readings per `new Date()`. One millisecond `now` parameter stands for the clock, and acceptance follows RFC 7519 (`now < exp`). So distinct model claims map to distinct library strings only at one-second resolution: two issuances in the same second with the same lifetime and secret are distinct `Signed` values here but one string in the library.
- 64-bit `long` overflow of `currentTimeMillis() + ttl`. Times and lifetimes are unbounded integers.
- `null` request fields. The strings in the model are never null.
- The HTTP controller's response mapping (200/401/500, the `hasText` checks on the returned pair), the request DTO getters and setters, Spring wiring and logging. None of these is part of the core.
- JPA mechanics and the Integer primary key. `save` is modelled as writing the row under its `uniqueId`.
- Concrete database faults. They appear only as the `lookupFault`, `storeFault` and `logFault` flags.
- Concurrency of same-subject upserts. Every operation is sequential.
- The transaction-log repository and the entity classes. Their source is not part of this model; their shapes are taken from the setters the service calls.

## Findings

| source | as written | input that shows it | evidently intended | confidence | as-written member | corrected member |
|---|---|---|---|---|---|---|
| src/main/java/com/tm/jsonwebtoken/util/JwtUtil.java:146-162 | `validateUserAndRefreshToken` looks the presented refresh token up in the stored access-token column (via `isValidUser`) and discards the result of `isTokenExpired` | issue for "u1"/"s3cr3t" with lifetimes 1000/60000 ms at t; presenting the issued refresh token at t+10 gives false, presenting the access token as refresh token at t+1100 (expired) gives true | accept the presented refresh token only if it is the stored refresh token and it has not expired | medium, not executed | `JwtUtil.ValidateUserAndRefreshToken`, shown by `Lifecycle.RefreshCheckAsWritten` | `JwtUtil.ValidateRefreshToken`, proved in `Lifecycle.RefreshCheckAcceptsIssuedRefreshToken` |
