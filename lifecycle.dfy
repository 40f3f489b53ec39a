/**
 * What the token service guarantees across calls: issuing then validating,
 * reissuing for the same subject, superseded and expired tokens, rotation, and
 * the invariants every sequence of calls keeps.
 */
module Lifecycle {
  import opened Wrappers
  import opened Entities
  import opened Service
  import JwtUtil

  /** A token freshly issued for a subject validates at the instant it is issued. */
  lemma IssueThenValidate(s: Snapshot, req: TokenGenerationRequest, now: int)
    requires JwtUtil.KeyUsable(req.secretKey) && req.accessTokenTime > 0
    ensures var step := Issue(s, req, now, false, false);
      && step.result.Success?
      && JwtUtil.ValidateToken(step.state.tokenDetails, false,
           TokenValidationRequest(req.uniqueId, req.secretKey, step.result.value.accessToken), now)
  {
  }

  /**
   * Issuing twice for one subject leaves exactly one row for it: the second issuance
   * updates that row in place, `createdAt` stays what the first issuance (or an
   * earlier one) set, and `updatedAt` is the second issuance's time.
   */
  lemma ReissueUpdatesInPlace(s: Snapshot, req1: TokenGenerationRequest, t1: int, req2: TokenGenerationRequest, t2: int)
    requires req1.uniqueId == req2.uniqueId
    requires req1.uniqueId in s.tokenDetails ==> s.tokenDetails[req1.uniqueId].createdAt <= t1
    requires t1 <= t2
    ensures var s1 := Issue(s, req1, t1, false, false).state;
      var s2 := Issue(s1, req2, t2, false, false).state;
      var u := req1.uniqueId;
      && u in s2.tokenDetails
      && |s2.tokenDetails| == |s1.tokenDetails|
      && s2.tokenDetails.Keys == s.tokenDetails.Keys + {u}
      && s2.tokenDetails[u].createdAt == s1.tokenDetails[u].createdAt
      && s2.tokenDetails[u].createdAt == (if u in s.tokenDetails then s.tokenDetails[u].createdAt else t1)
      && s2.tokenDetails[u].updatedAt == t2
      && s2.tokenDetails[u].createdAt <= s2.tokenDetails[u].updatedAt
      && s2.tokenDetails[u].accessToken == Issued(req2, t2).accessToken
      && |s2.transactions| == |s.transactions| + 2
  {
  }

  /**
   * A token that verifies under the secret and has not expired is still rejected once
   * a later issuance for the same subject installed a different access token.
   */
  lemma SupersededTokenRejected(s: Snapshot, req1: TokenGenerationRequest, t1: int, req2: TokenGenerationRequest, t2: int, now: int)
    requires req1.uniqueId == req2.uniqueId && req1.secretKey == req2.secretKey
    requires JwtUtil.KeyUsable(req1.secretKey)
    requires t1 != t2
    ensures var old1 := Issued(req1, t1).accessToken;
      var s2 := Issue(Issue(s, req1, t1, false, false).state, req2, t2, false, false).state;
      && (t1 <= now < t1 + req1.accessTokenTime ==> JwtUtil.Parse(req1.secretKey, old1, now).Valid?)
      && !JwtUtil.ValidateToken(s2.tokenDetails, false, TokenValidationRequest(req1.uniqueId, req1.secretKey, old1), now)
  {
  }

  /** The token on record for a subject is rejected from its expiry instant on. */
  lemma StoredButExpiredRejected(rows: Rows, req: TokenValidationRequest, now: int)
    requires req.uniqueId in rows && rows[req.uniqueId].accessToken == req.accessToken
    requires req.accessToken.Signed? && req.accessToken.expiresAt <= now
    ensures !JwtUtil.ValidateToken(rows, false, req, now)
  {
  }

  /**
   * Rotation with a valid access token installs a new pair: the new access token
   * validates when issued, and the presented one is rejected from then on unless
   * it is the very same token (issued at the same instant with the same lifetime).
   */
  lemma RegenerateRotates(s: Snapshot, req: RefreshTokenRequest, now: int)
    requires JwtUtil.ValidateToken(s.tokenDetails, false, AsValidation(req), now)
    requires req.accessTokenTime > 0
    ensures var step := Regenerate(s, req, now, false, false, false);
      && step.result.Success?
      && JwtUtil.ValidateToken(step.state.tokenDetails, false,
           TokenValidationRequest(req.uniqueId, req.secretKey, step.result.value.accessToken), now)
      && (req.accessToken.issuedAt != now ==>
            forall at :: !JwtUtil.ValidateToken(step.state.tokenDetails, false, AsValidation(req), at))
  {
  }

  /**
   * A rotation with a valid access token whose log save fails reports failure, yet
   * the current-state row already holds the new pair, so the presented access token
   * no longer validates unless it is the very token just re-issued.
   */
  lemma RegenerateLogFaultStillRotates(s: Snapshot, req: RefreshTokenRequest, now: int)
    requires JwtUtil.ValidateToken(s.tokenDetails, false, AsValidation(req), now)
    ensures var step := Regenerate(s, req, now, false, false, true);
      && step.result == Failure(CustomJwtException(RefreshError))
      && step.state.transactions == s.transactions
      && req.uniqueId in step.state.tokenDetails
      && step.state.tokenDetails[req.uniqueId].accessToken == Issued(AsGeneration(req), now).accessToken
      && step.state.tokenDetails[req.uniqueId].refreshToken == Issued(AsGeneration(req), now).refreshToken
      && (req.accessToken.issuedAt != now ==>
            forall at :: !JwtUtil.ValidateToken(step.state.tokenDetails, false, AsValidation(req), at))
  {
  }

  /** A rotation whose access token fails validation throws and changes no store. */
  lemma RegenerateRefusedChangesNothing(s: Snapshot, req: RefreshTokenRequest, now: int,
                                        lookupFault: bool, storeFault: bool, logFault: bool)
    requires req.uniqueId in s.tokenDetails ==> s.tokenDetails[req.uniqueId].accessToken != req.accessToken
    ensures Regenerate(s, req, now, lookupFault, storeFault, logFault)
         == Step(s, Failure(CustomJwtException(RefreshError)))
  {
  }

  /**
   * Subject "u1", secret "s3cr3t", lifetimes 1000 and 60000 ms: two distinct signed
   * tokens come back; 1100 ms later the access token is rejected as expired, and a
   * rotation presenting it throws and leaves both stores as they were.
   */
  lemma ExpiredAccessTokenScenario(s: Snapshot, t: int)
    ensures var req := TokenGenerationRequest("u1", "s3cr3t", 1000, 60000);
      var step := Issue(s, req, t, false, false);
      var pair := step.result.value;
      var later := t + 1100;
      var rotate := RefreshTokenRequest("u1", "s3cr3t", pair.accessToken, pair.refreshToken, 1000, 60000);
      && step.result.Success?
      && pair.accessToken.Signed? && pair.refreshToken.Signed?
      && pair.accessToken != pair.refreshToken
      && !JwtUtil.ValidateToken(step.state.tokenDetails, false, TokenValidationRequest("u1", "s3cr3t", pair.accessToken), later)
      && Regenerate(step.state, rotate, later, false, false, false)
         == Step(step.state, Failure(CustomJwtException(RefreshError)))
  {
    assert !JwtUtil.IsWhitespace("s3cr3t"[0]);
    assert JwtUtil.KeyUsable("s3cr3t");
  }

  /**
   * The refresh-token check as written rejects the refresh token just issued (its
   * lookup goes to the access-token column) and accepts the stored access token long
   * after it expired (the expiry answer is dropped). The check on the refresh column
   * with expiry, `ValidateRefreshToken`, decides both cases the other way.
   */
  lemma RefreshCheckAsWritten(s: Snapshot, t: int)
    ensures var req := TokenGenerationRequest("u1", "s3cr3t", 1000, 60000);
      var step := Issue(s, req, t, false, false);
      var pair := step.result.value;
      var rows := step.state.tokenDetails;
      var presentRefresh := RefreshTokenRequest("u1", "s3cr3t", pair.accessToken, pair.refreshToken, 1000, 60000);
      var presentAccess := RefreshTokenRequest("u1", "s3cr3t", pair.accessToken, pair.accessToken, 1000, 60000);
      && step.result.Success?
      && !JwtUtil.ValidateUserAndRefreshToken(rows, false, presentRefresh, t + 10)
      && JwtUtil.ValidateRefreshToken(rows, false, presentRefresh, t + 10)
      && JwtUtil.ValidateUserAndRefreshToken(rows, false, presentAccess, t + 1100)
      && !JwtUtil.ValidateRefreshToken(rows, false, presentAccess, t + 1100)
  {
    assert !JwtUtil.IsWhitespace("s3cr3t"[0]);
    assert JwtUtil.KeyUsable("s3cr3t");
  }

  /**
   * The refresh-token check on the refresh column accepts the refresh token an
   * issuance stored until, and only until, it expires.
   */
  lemma RefreshCheckAcceptsIssuedRefreshToken(s: Snapshot, gen: TokenGenerationRequest, t: int, now: int)
    requires JwtUtil.KeyUsable(gen.secretKey)
    ensures var step := Issue(s, gen, t, false, false);
      var pair := step.result.value;
      var req := RefreshTokenRequest(gen.uniqueId, gen.secretKey, pair.accessToken, pair.refreshToken,
                                     gen.accessTokenTime, gen.refreshTokenTime);
      JwtUtil.ValidateRefreshToken(step.state.tokenDetails, false, req, now) <==> now < t + gen.refreshTokenTime
  {
  }

  // ---------------------------------------------------------------------------
  // Sequences of calls

  /** One call into the service, with the failures its persistence layer suffers. */
  datatype Call =
    | Generate(gen: TokenGenerationRequest, now: int, storeFault: bool, logFault: bool)
    | Rotate(rot: RefreshTokenRequest, now: int, lookupFault: bool, storeFault: bool, logFault: bool)

  function Subject(c: Call): string {
    match c
    case Generate(gen, _, _, _) => gen.uniqueId
    case Rotate(rot, _, _, _, _) => rot.uniqueId
  }

  function Apply(s: Snapshot, c: Call): Snapshot {
    match c
    case Generate(gen, now, sf, lf) => Issue(s, gen, now, sf, lf).state
    case Rotate(rot, now, kf, sf, lf) => Regenerate(s, rot, now, kf, sf, lf).state
  }

  /** The stores after the calls, taken in order. */
  function Run(s: Snapshot, calls: seq<Call>): Snapshot
    decreases |calls|
  {
    if calls == [] then s else Run(Apply(s, calls[0]), calls[1..])
  }

  /** Every row was created no later than it was last updated. */
  ghost predicate Chronological(rows: Rows) {
    forall u :: u in rows ==> rows[u].createdAt <= rows[u].updatedAt
  }

  /** No row was updated after time `t`. */
  ghost predicate NotAfter(rows: Rows, t: int) {
    forall u :: u in rows ==> rows[u].updatedAt <= t
  }

  /** The calls happen at or after `t`, in non-decreasing time order. */
  ghost predicate Ticks(calls: seq<Call>, t: int) decreases |calls| {
    calls != [] ==> t <= calls[0].now && Ticks(calls[1..], calls[0].now)
  }

  /** Every signed token stored for a subject names that subject. */
  ghost predicate SubjectBound(rows: Rows) {
    forall u :: u in rows ==>
      && (rows[u].accessToken.Signed? ==> rows[u].accessToken.subject == u)
      && (rows[u].refreshToken.Signed? ==> rows[u].refreshToken.subject == u)
  }

  lemma ApplyEffect(s: Snapshot, c: Call)
    ensures Apply(s, c).tokenDetails == s.tokenDetails
         || Apply(s, c).tokenDetails == Upsert(s.tokenDetails, Subject(c),
              Issued(AsIssue(c), c.now).accessToken, Issued(AsIssue(c), c.now).refreshToken, c.now)
    ensures Apply(s, c).transactions == s.transactions
         || Apply(s, c).transactions == s.transactions + [Record(Subject(c), Issued(AsIssue(c), c.now), c.now)]
  {
  }

  /** The generation request a call issues with, when it issues. */
  function AsIssue(c: Call): TokenGenerationRequest {
    match c
    case Generate(gen, _, _, _) => gen
    case Rotate(rot, _, _, _, _) => AsGeneration(rot)
  }

  /** At most one row per subject, whatever the calls and their failures. */
  lemma {:induction false} RunKeyed(s: Snapshot, calls: seq<Call>)
    requires Keyed(s.tokenDetails)
    ensures Keyed(Run(s, calls).tokenDetails)
    decreases |calls|
  {
    if calls != [] {
      ApplyEffect(s, calls[0]);
      RunKeyed(Apply(s, calls[0]), calls[1..]);
    }
  }

  /** The transaction log only grows, by at most one record per call, and no record changes. */
  lemma {:induction false} RunLogAppendOnly(s: Snapshot, calls: seq<Call>)
    ensures s.transactions <= Run(s, calls).transactions
    ensures |Run(s, calls).transactions| <= |s.transactions| + |calls|
    decreases |calls|
  {
    if calls != [] {
      ApplyEffect(s, calls[0]);
      RunLogAppendOnly(Apply(s, calls[0]), calls[1..]);
    }
  }

  /** No row is ever deleted, and a row's `createdAt` never changes. */
  lemma {:induction false} RunKeepsCreatedAt(s: Snapshot, calls: seq<Call>, u: string)
    requires u in s.tokenDetails
    ensures u in Run(s, calls).tokenDetails
    ensures Run(s, calls).tokenDetails[u].createdAt == s.tokenDetails[u].createdAt
    decreases |calls|
  {
    if calls != [] {
      ApplyEffect(s, calls[0]);
      RunKeepsCreatedAt(Apply(s, calls[0]), calls[1..], u);
    }
  }

  /** Rows appear only for subjects some call was about. */
  lemma {:induction false} RunRowsFromCalls(s: Snapshot, calls: seq<Call>)
    ensures forall u :: u in Run(s, calls).tokenDetails ==>
      u in s.tokenDetails || exists i :: 0 <= i < |calls| && Subject(calls[i]) == u
    decreases |calls|
  {
    if calls != [] {
      var s1 := Apply(s, calls[0]);
      ApplyEffect(s, calls[0]);
      RunRowsFromCalls(s1, calls[1..]);
      forall u | u in Run(s, calls).tokenDetails
        ensures u in s.tokenDetails || exists i :: 0 <= i < |calls| && Subject(calls[i]) == u
      {
        if u !in s.tokenDetails {
          if u in s1.tokenDetails {
            assert Subject(calls[0]) == u;
          } else {
            var i :| 0 <= i < |calls[1..]| && Subject(calls[1..][i]) == u;
            assert Subject(calls[i + 1]) == u;
          }
        }
      }
    }
  }

  /** Calls about other subjects leave a subject's row (or its absence) exactly as it was. */
  lemma {:induction false} RunOthersUntouched(s: Snapshot, calls: seq<Call>, u: string)
    requires forall i :: 0 <= i < |calls| ==> Subject(calls[i]) != u
    ensures u in Run(s, calls).tokenDetails <==> u in s.tokenDetails
    ensures u in s.tokenDetails ==> Run(s, calls).tokenDetails[u] == s.tokenDetails[u]
    decreases |calls|
  {
    if calls != [] {
      ApplyEffect(s, calls[0]);
      assert Subject(calls[0]) != u;
      RunOthersUntouched(Apply(s, calls[0]), calls[1..], u);
    }
  }

  /** With a clock that never runs backwards, `updatedAt >= createdAt` holds for every row. */
  lemma {:induction false} RunChronological(s: Snapshot, calls: seq<Call>, t: int)
    requires Chronological(s.tokenDetails) && NotAfter(s.tokenDetails, t)
    requires Ticks(calls, t)
    ensures Chronological(Run(s, calls).tokenDetails)
    decreases |calls|
  {
    if calls != [] {
      var s1 := Apply(s, calls[0]);
      ApplyEffect(s, calls[0]);
      assert NotAfter(s1.tokenDetails, calls[0].now);
      RunChronological(s1, calls[1..], calls[0].now);
    }
  }

  /** Every stored signed token names the subject it is stored under. */
  lemma {:induction false} RunSubjectBound(s: Snapshot, calls: seq<Call>)
    requires SubjectBound(s.tokenDetails)
    ensures SubjectBound(Run(s, calls).tokenDetails)
    decreases |calls|
  {
    if calls != [] {
      var c := calls[0];
      ApplyEffect(s, c);
      assert AsIssue(c).uniqueId == Subject(c);
      RunSubjectBound(Apply(s, c), calls[1..]);
    }
  }

  /**
   * The validation contract never looks at a token's subject claim, yet in any state
   * the service can reach from one where stored tokens name their subjects, a token
   * that validates for `uniqueId` names `uniqueId`.
   */
  lemma ValidatedTokenNamesSubject(s: Snapshot, calls: seq<Call>, req: TokenValidationRequest, now: int)
    requires SubjectBound(s.tokenDetails)
    requires JwtUtil.ValidateToken(Run(s, calls).tokenDetails, false, req, now)
    ensures req.accessToken.Signed? && req.accessToken.subject == req.uniqueId
  {
    RunSubjectBound(s, calls);
  }
}
