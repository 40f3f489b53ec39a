/**
 * Token generation and validation. Every operation is a function of the request,
 * the clock reading `now` (milliseconds), and, where the store is consulted, a
 * snapshot of the current-state table together with a flag saying whether the
 * query fails. Signing and parsing are abstract: a token verifies under a secret
 * exactly when it was signed with that secret.
 */
module JwtUtil {
  import opened Wrappers
  import opened Entities
  import Repo = TokenDetailsRepository

  predicate IsWhitespace(c: char) {
    c == ' ' || c == '\t' || c == '\n' || c == '\r' || c == '\U{B}' || c == '\U{C}'
    || ('\U{1C}' <= c <= '\U{1F}')
  }

  /** The signing library refuses a secret that has no text. */
  predicate KeyUsable(secret: string) {
    exists i :: 0 <= i < |secret| && !IsWhitespace(secret[i])
  }

  /** What parsing a token under a secret yields. */
  datatype Parsed = Valid(claims: Claims) | Expired(claims: Claims) | Rejected(reason: JwtError)

  /**
   * The library's parser: the key is checked, then the structure, then the
   * signature, and only a correctly signed token is checked for expiry, which
   * follows section 4.1.4 of RFC 7519 (accepted only while `now < exp`).
   */
  function Parse(secret: string, token: Token, now: int): Parsed {
    if !KeyUsable(secret) then Rejected(KeyRejected)
    else match token
      case Opaque(_) => Rejected(Malformed)
      case Signed(subject, key, iat, exp) =>
        if key != secret then Rejected(SignatureInvalid)
        else if now < exp then Valid(Claims(subject, iat, exp))
        else Expired(Claims(subject, iat, exp))
  }

  /** The builder chain: subject, issued-at `now`, expiry `now + ttl`, signed; or the catch's fixed text. */
  function Build(subject: string, secret: string, now: int, ttl: int, failure: string): Token {
    if KeyUsable(secret) then Signed(subject, secret, now, now + ttl) else Opaque(failure)
  }

  /**
   * An access token for the request's subject: parsed under the request's secret it
   * gives back subject, issued-at and expiry, and stays valid for `accessTokenTime`;
   * no other secret verifies it. If signing fails, the fixed failure text is returned.
   */
  function GenerateAccessToken(req: TokenGenerationRequest, now: int): (t: Token)
    ensures KeyUsable(req.secretKey) ==>
      var c := Claims(req.uniqueId, now, now + req.accessTokenTime);
      forall at :: Parse(req.secretKey, t, at) == if at < now + req.accessTokenTime then Valid(c) else Expired(c)
    ensures forall key, at :: !Parse(key, t, at).Rejected? ==> key == req.secretKey
    ensures !KeyUsable(req.secretKey) ==> t == Opaque(AccessTokenFailure)
  {
    Build(req.uniqueId, req.secretKey, now, req.accessTokenTime, AccessTokenFailure)
  }

  /** As `GenerateAccessToken`, with the lifetime `refreshTokenTime`. */
  function GenerateRefreshToken(req: TokenGenerationRequest, now: int): (t: Token)
    ensures KeyUsable(req.secretKey) ==>
      var c := Claims(req.uniqueId, now, now + req.refreshTokenTime);
      forall at :: Parse(req.secretKey, t, at) == if at < now + req.refreshTokenTime then Valid(c) else Expired(c)
    ensures forall key, at :: !Parse(key, t, at).Rejected? ==> key == req.secretKey
    ensures !KeyUsable(req.secretKey) ==> t == Opaque(RefreshTokenFailure)
  {
    Build(req.uniqueId, req.secretKey, now, req.refreshTokenTime, RefreshTokenFailure)
  }

  /**
   * True when the table holds `token` as the access token of `uniqueId`; a failing
   * query is rethrown as a `CustomJwtException`.
   */
  function IsValidUser(rows: Rows, lookupFault: bool, uniqueId: string, token: Token): (r: Result<bool, Exception>)
    ensures r.Failure? <==> lookupFault
    ensures r.Failure? ==> r.error == CustomJwtException(ValidateAccessTokenError)
    ensures r.Success? ==> (r.value <==> uniqueId in rows && rows[uniqueId].accessToken == token)
  {
    if lookupFault then Failure(CustomJwtException(ValidateAccessTokenError))
    else Success(Repo.FindByUniqueIdAndAccessToken(rows, uniqueId, token).Some?)
  }

  /**
   * Despite its name, true when the token is NOT expired. Only the expiry exception
   * is caught (giving false); a malformed token, a wrong signature or a refused key
   * escapes as an exception.
   */
  function IsTokenExpired(secret: string, token: Token, now: int): (r: Result<bool, Exception>)
    ensures r == Success(true) <==>
      KeyUsable(secret) && token.Signed? && token.key == secret && now < token.expiresAt
    ensures r == Success(false) <==>
      KeyUsable(secret) && token.Signed? && token.key == secret && token.expiresAt <= now
    ensures r.Failure? ==> r.error.JwtException?
  {
    match Parse(secret, token, now)
    case Valid(_) => Success(true)
    case Expired(_) => Success(false)
    case Rejected(reason) => Failure(JwtException(reason))
  }

  /**
   * The validation contract: the presented token is the access token on record for
   * the subject AND it verifies under the secret without being expired. Every
   * exception on the way is caught and yields false.
   */
  function ValidateToken(rows: Rows, lookupFault: bool, req: TokenValidationRequest, now: int): (valid: bool)
    ensures valid <==>
      && !lookupFault
      && req.uniqueId in rows && rows[req.uniqueId].accessToken == req.accessToken
      && Parse(req.secretKey, req.accessToken, now).Valid?
    ensures valid ==>
      KeyUsable(req.secretKey) && req.accessToken.Signed? && req.accessToken.key == req.secretKey
      && now < req.accessToken.expiresAt
  {
    match IsValidUser(rows, lookupFault, req.uniqueId, req.accessToken)
    case Failure(_) => false
    case Success(isValidUser) =>
      match IsTokenExpired(req.secretKey, req.accessToken, now)
      case Failure(_) => false
      case Success(notExpired) => isValidUser && notExpired
  }

  /**
   * As written: the presented REFRESH token is looked up in the stored ACCESS token
   * column (through `IsValidUser`), and the expiry check's answer is discarded, so
   * only a parser exception (malformed, wrong signature, refused key) makes it false.
   */
  function ValidateUserAndRefreshToken(rows: Rows, lookupFault: bool, req: RefreshTokenRequest, now: int): (valid: bool)
    ensures valid <==>
      && !lookupFault
      && req.uniqueId in rows && rows[req.uniqueId].accessToken == req.refreshToken
      && !Parse(req.secretKey, req.refreshToken, now).Rejected?
  {
    match IsValidUser(rows, lookupFault, req.uniqueId, req.refreshToken)
    case Failure(_) => false
    case Success(isValidUser) =>
      if isValidUser then
        match IsTokenExpired(req.secretKey, req.refreshToken, now)
        case Failure(_) => false
        case Success(_) => true
      else false
  }

  /**
   * The refresh-token check as its name and documentation describe it: the presented
   * refresh token is the one on record in the refresh column, and it verifies and
   * is not expired.
   */
  function ValidateRefreshToken(rows: Rows, lookupFault: bool, req: RefreshTokenRequest, now: int): (valid: bool)
    ensures valid <==>
      && !lookupFault
      && req.uniqueId in rows && rows[req.uniqueId].refreshToken == req.refreshToken
      && Parse(req.secretKey, req.refreshToken, now).Valid?
  {
    !lookupFault
    && Repo.FindByUniqueIdAndRefreshToken(rows, req.uniqueId, req.refreshToken).Some?
    && IsTokenExpired(req.secretKey, req.refreshToken, now) == Success(true)
  }
}
