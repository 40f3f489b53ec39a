/**
 * The derived finder queries of the current-state repository, as lookups over
 * the table. The single-row return type relies on the table holding at most one
 * row per `uniqueId`; the map representation has that by construction, and
 * `Keyed` ties each row's own `uniqueId` to its key.
 */
module TokenDetailsRepository {
  import opened Wrappers
  import opened Entities

  /** The row whose `uniqueId` is `uniqueId`, or none. */
  function FindByUniqueId(rows: Rows, uniqueId: string): (r: Option<TokenDetails>)
    ensures r.Some? <==> uniqueId in rows
    ensures r.Some? ==> r.value in rows.Values
    ensures Keyed(rows) && r.Some? ==> r.value.uniqueId == uniqueId
    ensures Keyed(rows) && r.None? ==> forall row :: row in rows.Values ==> row.uniqueId != uniqueId
  {
    if uniqueId in rows then Some(rows[uniqueId]) else None
  }

  /** The row for `uniqueId` if its stored access token is `accessToken`. */
  function FindByUniqueIdAndAccessToken(rows: Rows, uniqueId: string, accessToken: Token): (r: Option<TokenDetails>)
    ensures r.Some? <==> uniqueId in rows && rows[uniqueId].accessToken == accessToken
    ensures r.Some? ==> r.value in rows.Values && r.value.accessToken == accessToken
    ensures Keyed(rows) && r.Some? ==> r.value.uniqueId == uniqueId
    ensures Keyed(rows) && r.None? ==>
      forall row :: row in rows.Values ==> !(row.uniqueId == uniqueId && row.accessToken == accessToken)
  {
    match FindByUniqueId(rows, uniqueId)
    case Some(row) => if row.accessToken == accessToken then Some(row) else None
    case None => None
  }

  /** The row for `uniqueId` if its stored refresh token is `refreshToken`. */
  function FindByUniqueIdAndRefreshToken(rows: Rows, uniqueId: string, refreshToken: Token): (r: Option<TokenDetails>)
    ensures r.Some? <==> uniqueId in rows && rows[uniqueId].refreshToken == refreshToken
    ensures r.Some? ==> r.value in rows.Values && r.value.refreshToken == refreshToken
    ensures Keyed(rows) && r.Some? ==> r.value.uniqueId == uniqueId
    ensures Keyed(rows) && r.None? ==>
      forall row :: row in rows.Values ==> !(row.uniqueId == uniqueId && row.refreshToken == refreshToken)
  {
    match FindByUniqueId(rows, uniqueId)
    case Some(row) => if row.refreshToken == refreshToken then Some(row) else None
    case None => None
  }

  /** The repository's `save`: writes `row` under its `uniqueId`, replacing any old row. */
  function Save(rows: Rows, row: TokenDetails): (rows': Rows)
    ensures row.uniqueId in rows' && rows'[row.uniqueId] == row
    ensures rows'.Keys == rows.Keys + {row.uniqueId}
    ensures forall u :: u in rows && u != row.uniqueId ==> rows'[u] == rows[u]
    ensures Keyed(rows) ==> Keyed(rows')
  {
    rows[row.uniqueId := row]
  }
}
