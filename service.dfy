/**
 * The token service: issuance, validation and rotation over two stores, the
 * current-state table (one row per `uniqueId`, updated in place) and the
 * append-only transaction log. The functions below specify each operation on
 * values; the class `JwtServiceImpl` performs them step by step on its fields
 * and is proved to agree with them.
 *
 * Failures of the persistence layer are parameters: `lookupFault` (the finder
 * query throws), `storeFault` (reading or saving the current-state row throws),
 * `logFault` (saving the transaction row throws).
 */
module Service {
  import opened Wrappers
  import opened Entities
  import Repo = TokenDetailsRepository
  import JwtUtil

  /** The contents of both stores. */
  datatype Snapshot = Snapshot(tokenDetails: Rows, transactions: seq<TransacTokenDetails>)

  /** The new contents of both stores and what the call returned or threw. */
  datatype Step<+T> = Step(state: Snapshot, result: Result<T, Exception>)

  /**
   * The effect of a successful save of the current state: the row for `uniqueId`
   * carries the new pair and `updatedAt == now`; an existing row keeps its
   * `createdAt`, a new one gets `createdAt == now`; no row for any other subject
   * changes, and a row is added only when none existed.
   */
  function Upsert(rows: Rows, uniqueId: string, accessToken: Token, refreshToken: Token, now: int): (rows': Rows)
    ensures uniqueId in rows'
    ensures rows'[uniqueId].accessToken == accessToken && rows'[uniqueId].refreshToken == refreshToken
    ensures rows'[uniqueId].updatedAt == now
    ensures rows'[uniqueId].createdAt == if uniqueId in rows then rows[uniqueId].createdAt else now
    ensures rows'.Keys == rows.Keys + {uniqueId}
    ensures |rows'| == if uniqueId in rows then |rows| else |rows| + 1
    ensures forall u :: u in rows && u != uniqueId ==> rows'[u] == rows[u]
    ensures Keyed(rows) ==> Keyed(rows')
  {
    var createdAt := if uniqueId in rows then rows[uniqueId].createdAt else now;
    var rows' := Repo.Save(rows, TokenDetails(uniqueId, accessToken, refreshToken, createdAt, now));
    assert uniqueId in rows ==> rows'.Keys == rows.Keys;
    rows'
  }

  /** The transaction row recording one issuance. */
  function Record(uniqueId: string, pair: TokenPair, now: int): TransacTokenDetails {
    TransacTokenDetails(uniqueId, pair.accessToken, pair.refreshToken, now, now)
  }

  /** The pair minted for a generation request at time `now`. */
  function Issued(req: TokenGenerationRequest, now: int): TokenPair {
    TokenPair(JwtUtil.GenerateAccessToken(req, now), JwtUtil.GenerateRefreshToken(req, now))
  }

  /**
   * Issuance: the current state is saved first, then the transaction row is
   * appended, then the stored pair is returned. Either save failing makes the call
   * throw `CustomJwtException`; a failing log save comes after the current state
   * was already written, which stays written.
   */
  function Issue(s: Snapshot, req: TokenGenerationRequest, now: int, storeFault: bool, logFault: bool): (step: Step<TokenPair>)
    ensures step.result.Success? <==> !storeFault && !logFault
    ensures step.result.Failure? ==> step.result.error == CustomJwtException(TokenDetailsError)
    ensures storeFault ==> step.state == s
    ensures !storeFault ==>
      step.state.tokenDetails ==
      Upsert(s.tokenDetails, req.uniqueId, Issued(req, now).accessToken, Issued(req, now).refreshToken, now)
    ensures step.state.transactions ==
      if step.result.Success? then s.transactions + [Record(req.uniqueId, Issued(req, now), now)] else s.transactions
    ensures step.result.Success? ==>
      req.uniqueId in step.state.tokenDetails
      && step.result.value.accessToken == step.state.tokenDetails[req.uniqueId].accessToken
      && step.result.value.refreshToken == step.state.tokenDetails[req.uniqueId].refreshToken
  {
    var pair := Issued(req, now);
    if storeFault then Step(s, Failure(CustomJwtException(TokenDetailsError)))
    else
      var rows := Upsert(s.tokenDetails, req.uniqueId, pair.accessToken, pair.refreshToken, now);
      if logFault then Step(Snapshot(rows, s.transactions), Failure(CustomJwtException(TokenDetailsError)))
      else Step(Snapshot(rows, s.transactions + [Record(req.uniqueId, pair, now)]), Success(pair))
  }

  /** The validation request that rotation checks its access token with. */
  function AsValidation(req: RefreshTokenRequest): TokenValidationRequest {
    TokenValidationRequest(req.uniqueId, req.secretKey, req.accessToken)
  }

  /** The generation request that rotation issues with: same subject, secret and lifetimes. */
  function AsGeneration(req: RefreshTokenRequest): TokenGenerationRequest {
    TokenGenerationRequest(req.uniqueId, req.secretKey, req.accessTokenTime, req.refreshTokenTime)
  }

  /**
   * Rotation: only when the presented ACCESS token passes the validation contract
   * is a new pair issued for the same subject with the request's secret and
   * lifetimes; otherwise nothing changes. Every failure surfaces as the one
   * exception "Error refreshing token".
   */
  function Regenerate(s: Snapshot, req: RefreshTokenRequest, now: int, lookupFault: bool, storeFault: bool, logFault: bool): (step: Step<TokenPair>)
    ensures !JwtUtil.ValidateToken(s.tokenDetails, lookupFault, AsValidation(req), now) ==> step.state == s
    ensures JwtUtil.ValidateToken(s.tokenDetails, lookupFault, AsValidation(req), now) ==>
      step.state == Issue(s, AsGeneration(req), now, storeFault, logFault).state
    ensures step.result.Success? <==>
      JwtUtil.ValidateToken(s.tokenDetails, lookupFault, AsValidation(req), now) && !storeFault && !logFault
    ensures step.result.Success? ==> step.result.value == Issued(AsGeneration(req), now)
    ensures step.result.Failure? ==> step.result.error == CustomJwtException(RefreshError)
  {
    if JwtUtil.ValidateToken(s.tokenDetails, lookupFault, AsValidation(req), now) then
      var issued := Issue(s, AsGeneration(req), now, storeFault, logFault);
      match issued.result
      case Success(pair) => Step(issued.state, Success(pair))
      case Failure(_) => Step(issued.state, Failure(CustomJwtException(RefreshError)))
    else
      Step(s, Failure(CustomJwtException(RefreshError)))
  }

  /** The service object with its two injected repositories. */
  class JwtServiceImpl {
    var tokenDetails: Rows
    var transactions: seq<TransacTokenDetails>

    ghost predicate Valid()
      reads this
    {
      Keyed(tokenDetails)
    }

    function State(): Snapshot
      reads this
    {
      Snapshot(tokenDetails, transactions)
    }

    constructor (rows: Rows, log: seq<TransacTokenDetails>)
      requires Keyed(rows)
      ensures Valid()
      ensures tokenDetails == rows && transactions == log
    {
      tokenDetails := rows;
      transactions := log;
    }

    /** Read the row for `uniqueId`; update it in place, or insert a fresh one. */
    method SaveTokenDetails(uniqueId: string, accessToken: Token, refreshToken: Token, now: int, storeFault: bool)
      returns (outcome: Outcome<Exception>)
      requires Valid()
      modifies this`tokenDetails
      ensures Valid()
      ensures outcome.Fail? <==> storeFault
      ensures outcome.Fail? ==>
        outcome.error == CustomJwtException(SaveDetailsError) && tokenDetails == old(tokenDetails)
      ensures outcome.Pass? ==> tokenDetails == Upsert(old(tokenDetails), uniqueId, accessToken, refreshToken, now)
    {
      if storeFault {
        return Fail(CustomJwtException(SaveDetailsError));
      }
      var existing := Repo.FindByUniqueId(tokenDetails, uniqueId);
      if existing.Some? {
        var row := existing.value;
        row := row.(accessToken := accessToken);
        row := row.(refreshToken := refreshToken);
        row := row.(updatedAt := now);
        tokenDetails := Repo.Save(tokenDetails, row);
      } else {
        var row := TokenDetails(uniqueId, accessToken, refreshToken, now, now);
        tokenDetails := Repo.Save(tokenDetails, row);
      }
      outcome := Pass;
    }

    /** Append one transaction row; earlier rows are never touched. */
    method SaveTransactionTokenDetails(uniqueId: string, accessToken: Token, refreshToken: Token, now: int, logFault: bool)
      returns (outcome: Outcome<Exception>)
      modifies this`transactions
      ensures outcome.Fail? <==> logFault
      ensures outcome.Fail? ==>
        outcome.error == CustomJwtException(SaveTransactionError) && transactions == old(transactions)
      ensures outcome.Pass? ==>
        transactions == old(transactions) + [TransacTokenDetails(uniqueId, accessToken, refreshToken, now, now)]
    {
      if logFault {
        return Fail(CustomJwtException(SaveTransactionError));
      }
      var record := TransacTokenDetails(uniqueId, accessToken, refreshToken, now, now);
      transactions := transactions + [record];
      outcome := Pass;
    }

    method GenerateToken(req: TokenGenerationRequest, now: int, storeFault: bool, logFault: bool)
      returns (result: Result<TokenPair, Exception>)
      requires Valid()
      modifies this
      ensures Valid()
      ensures Step(State(), result) == Issue(old(State()), req, now, storeFault, logFault)
    {
      var accessToken := JwtUtil.GenerateAccessToken(req, now);
      var refreshToken := JwtUtil.GenerateRefreshToken(req, now);
      var saved := SaveTokenDetails(req.uniqueId, accessToken, refreshToken, now, storeFault);
      if saved.Fail? {
        return Failure(CustomJwtException(TokenDetailsError));
      }
      var logged := SaveTransactionTokenDetails(req.uniqueId, accessToken, refreshToken, now, logFault);
      if logged.Fail? {
        return Failure(CustomJwtException(TokenDetailsError));
      }
      result := Success(TokenPair(accessToken, refreshToken));
    }

    /** Validation against the current state; reads the store and changes nothing. */
    method ValidateToken(req: TokenValidationRequest, now: int, lookupFault: bool) returns (valid: bool)
      ensures valid <==>
        && !lookupFault
        && req.uniqueId in tokenDetails && tokenDetails[req.uniqueId].accessToken == req.accessToken
        && JwtUtil.KeyUsable(req.secretKey) && req.accessToken.Signed? && req.accessToken.key == req.secretKey
        && now < req.accessToken.expiresAt
    {
      valid := JwtUtil.ValidateToken(tokenDetails, lookupFault, req, now);
    }

    method RegenerateTokens(req: RefreshTokenRequest, now: int, lookupFault: bool, storeFault: bool, logFault: bool)
      returns (result: Result<TokenPair, Exception>)
      requires Valid()
      modifies this
      ensures Valid()
      ensures Step(State(), result) == Regenerate(old(State()), req, now, lookupFault, storeFault, logFault)
    {
      var isAccessTokenValid := JwtUtil.ValidateToken(tokenDetails, lookupFault, AsValidation(req), now);
      if isAccessTokenValid {
        var generated := GenerateToken(AsGeneration(req), now, storeFault, logFault);
        if generated.Failure? {
          return Failure(CustomJwtException(RefreshError));
        }
        result := Success(generated.value);
      } else {
        result := Failure(CustomJwtException(RefreshError));
      }
    }
  }
}
