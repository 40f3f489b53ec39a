/**
 * The values the token service works on: tokens, the two persisted entities,
 * the request and response shapes, and the exceptions it raises.
 */
module Entities {

  /**
   * A compact token string, seen abstractly. `Signed` is what the signing library
   * produces from a subject, a signing key and the two timestamps (milliseconds);
   * two tokens are the same string exactly when they are the same `Signed` value.
   * `Opaque` is any other string: the fixed text returned when signing failed, or
   * whatever a caller presents.
   */
  datatype Token =
    | Signed(subject: string, key: string, issuedAt: int, expiresAt: int)
    | Opaque(text: string)

  /** The registered claims carried by a signed token. */
  datatype Claims = Claims(subject: string, issuedAt: int, expiresAt: int)

  /** A row of the current-state table: one per `uniqueId`. */
  datatype TokenDetails = TokenDetails(
    uniqueId: string,
    accessToken: Token,
    refreshToken: Token,
    createdAt: int,
    updatedAt: int)

  /** A row of the append-only transaction table. */
  datatype TransacTokenDetails = TransacTokenDetails(
    uniqueId: string,
    accessToken: Token,
    refreshToken: Token,
    createdAt: int,
    updatedAt: int)

  /** Current-state table, keyed by `uniqueId`. */
  type Rows = map<string, TokenDetails>

  /** Each row is filed under its own `uniqueId`. */
  ghost predicate Keyed(rows: Rows) {
    forall u :: u in rows ==> rows[u].uniqueId == u
  }

  datatype TokenGenerationRequest = TokenGenerationRequest(
    uniqueId: string,
    secretKey: string,
    accessTokenTime: int,
    refreshTokenTime: int)

  datatype TokenValidationRequest = TokenValidationRequest(
    uniqueId: string,
    secretKey: string,
    accessToken: Token)

  datatype RefreshTokenRequest = RefreshTokenRequest(
    uniqueId: string,
    secretKey: string,
    accessToken: Token,
    refreshToken: Token,
    accessTokenTime: int,
    refreshTokenTime: int)

  /** The access/refresh pair handed back by issuance and by regeneration. */
  datatype TokenPair = TokenPair(accessToken: Token, refreshToken: Token)

  /** Why the signing library refused to parse a token. */
  datatype JwtError = Malformed | SignatureInvalid | KeyRejected

  datatype Exception =
    | CustomJwtException(message: string)
    /** a parser exception other than expiry, escaping `isTokenExpired` */
    | JwtException(reason: JwtError)

  const AccessTokenFailure := "Unable to generate access token"
  const RefreshTokenFailure := "Unable to generate refresh token"

  const ValidateAccessTokenError := "Unable to validate access token"
  const TokenDetailsError := "Unable to get the token details!.."
  const SaveDetailsError := "Unable to save/update the details!.."
  const SaveTransactionError := "Unable to save the details!.."
  const RefreshError := "Error refreshing token"
}
