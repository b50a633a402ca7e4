/** Records and enumerations shared by the match repository and the match model. */
module MatchTypes {

  /** Length of a join code handed out by the code generator. */
  const MAP_CODE_LENGTH: nat := 5

  /** What the repository stores for a freshly created match (its state blob before any turn). */
  const EMPTY_MATCH_STATE: string := "{}"

  datatype Option<+T> = None | Some(value: T)

  type PlayerId = nat
  type MatchId = nat
  type MapId = nat

  datatype MatchStatus = New | InProgress | Ended | Forfeit

  datatype Side = Blue | Red

  datatype PlayerStatus = Active | Inactive | Win | Loss | Dismissed

  /** One row of the match table: join code, status and map reference. */
  datatype MatchRecord = MatchRecord(code: string, status: MatchStatus, mapId: MapId)

  /** One row of the player-in-match table. */
  datatype PlayerRecord = PlayerRecord(player: PlayerId, matchId: MatchId, side: Side, status: PlayerStatus)

  /** The map catalog: translation between map codes and map ids, in both directions. */
  datatype MapCatalog = MapCatalog(idOf: map<string, MapId>, codeOf: map<MapId, string>)
  {
    /** Every known map code resolves to an id that translates back to that code. */
    ghost predicate Consistent()
    {
      forall c :: c in idOf ==> idOf[c] in codeOf && codeOf[idOf[c]] == c
    }
  }

  /** Public view of a match for a prospective joiner. */
  datatype MatchDetails = MatchDetails(
    joinCode: string, matchStatus: MatchStatus, mapCode: string, availableSide: Option<Side>)

  /** A participant's view of their own standing in a match. */
  datatype PlayerStatusView = PlayerStatusView(
    joinCode: string, matchStatus: MatchStatus, mapCode: string,
    playerSide: Side, playerStatus: PlayerStatus)

  /** A participant's view of a match together with its state blob. */
  datatype MatchStateView = MatchStateView(
    joinCode: string, matchStatus: MatchStatus, mapCode: string, data: string,
    playerStatus: PlayerStatus, playerSide: Side)

  /** One entry of a player's match list. */
  datatype PlayerMatchView = PlayerMatchView(
    joinCode: string, matchStatus: MatchStatus, side: Side,
    playerStatus: PlayerStatus, mapCode: string)
}
