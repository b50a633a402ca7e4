/**
 * The match model: creating a match, assigning sides, joining, exchanging turns,
 * detecting a win, abandoning, and the read-only projections of a match.
 * The repository's tables are the fields of `Store`; each state-changing operation is a
 * method of `Store` that performs, in order, the repository writes of the Python operation
 * of the same name; the queries are functions of `Store`.
 */
module MatchModel {
  import opened MatchTypes
  import opened MatchRepository
  import opened TurnText

  // ---------------------------------------------------------------- pure parts

  /** `_get_available_side_for_match` applied to the rows of one match. */
  function AvailableSide(slots: seq<PlayerRecord>): (r: Option<Side>)
    ensures r.Some? <==> |slots| == 1
    ensures r.Some? ==> forall x :: x in slots ==> x.side != r.value
  {
    if |slots| != 1 then None
    else if slots[0].side == Blue then Some(Red)
    else Some(Blue)
  }

  /** Effect of `_update_players_state` on the player table. */
  function PlayersStateAfter(ps: seq<PlayerRecord>, m: MatchId, p: PlayerId,
                             thatStatus: PlayerStatus, otherStatus: PlayerStatus): (r: seq<PlayerRecord>)
    ensures SameSlots(r, ps)
    ensures forall k :: 0 <= k < |ps| && ps[k].matchId == m && ps[k].player == p ==> r[k].status == thatStatus
    ensures forall k :: 0 <= k < |ps| && ps[k].matchId == m && ps[k].player != p ==> r[k].status == otherStatus
    ensures forall k :: 0 <= k < |ps| && ps[k].matchId != m ==> r[k] == ps[k]
  {
    SetPlayerStatus(SetOtherPlayersStatus(ps, m, p, otherStatus), m, p, thatStatus)
  }

  /** A second status update of the same match and player overrides the first entirely. */
  lemma PlayersStateAfterOverrides(ps: seq<PlayerRecord>, m: MatchId, p: PlayerId,
                                   first: PlayerStatus, firstOther: PlayerStatus,
                                   second: PlayerStatus, secondOther: PlayerStatus)
    ensures PlayersStateAfter(PlayersStateAfter(ps, m, p, first, firstOther), m, p, second, secondOther)
         == PlayersStateAfter(ps, m, p, second, secondOther)
  {
    var once := PlayersStateAfter(ps, m, p, first, firstOther);
    var twice := PlayersStateAfter(once, m, p, second, secondOther);
    var direct := PlayersStateAfter(ps, m, p, second, secondOther);
    assert |twice| == |direct|;
    forall k | 0 <= k < |ps|
      ensures twice[k] == direct[k]
    {
      assert once[k].matchId == ps[k].matchId && once[k].player == ps[k].player;
    }
  }

  /** Effect of `abandon_match` on the player table, given the match's status before. */
  function AbandonedPlayers(ps: seq<PlayerRecord>, m: MatchId, p: PlayerId, before: MatchStatus): (r: seq<PlayerRecord>)
    ensures SameSlots(r, ps)
    ensures forall k :: 0 <= k < |ps| && ps[k].matchId == m && ps[k].player == p ==> r[k].status == Dismissed
    ensures forall k :: 0 <= k < |ps| && ps[k].matchId == m && ps[k].player != p ==>
      r[k].status == if before == InProgress then Win else ps[k].status
    ensures forall k :: 0 <= k < |ps| && ps[k].matchId != m ==> r[k] == ps[k]
  {
    var awarded := if before == InProgress then SetOtherPlayersStatus(ps, m, p, Win) else ps;
    SetPlayerStatus(awarded, m, p, Dismissed)
  }

  /** Status of a match after `abandon_match`, given its status before. */
  function AbandonedStatus(before: MatchStatus): MatchStatus
  {
    match before
    case InProgress => Forfeit
    case New => Ended
    case _ => before
  }

  /** Each row of `q` with its status set as `_update_players_state` sets it within one match. */
  function Restatus(q: seq<PlayerRecord>, p: PlayerId, thatStatus: PlayerStatus, otherStatus: PlayerStatus): seq<PlayerRecord>
  {
    if q == [] then []
    else
      var last := q[|q| - 1];
      Restatus(q[..|q| - 1], p, thatStatus, otherStatus)
        + [last.(status := if last.player == p then thatStatus else otherStatus)]
  }

  /** How many rows of `q` have status `s`. */
  function CountStatus(q: seq<PlayerRecord>, s: PlayerStatus): nat
  {
    if q == [] then 0
    else CountStatus(q[..|q| - 1], s) + (if q[|q| - 1].status == s then 1 else 0)
  }

  /** Restatusing distributes over appending one row. */
  lemma RestatusAppend(q: seq<PlayerRecord>, x: PlayerRecord, p: PlayerId, a: PlayerStatus, o: PlayerStatus)
    ensures Restatus(q + [x], p, a, o) == Restatus(q, p, a, o) + [x.(status := if x.player == p then a else o)]
  {
    assert (q + [x])[..|q|] == q;
  }

  /** Counting a status distributes over appending one row. */
  lemma CountStatusAppend(q: seq<PlayerRecord>, x: PlayerRecord, s: PlayerStatus)
    ensures CountStatus(q + [x], s) == CountStatus(q, s) + (if x.status == s then 1 else 0)
  {
    assert (q + [x])[..|q|] == q;
  }

  /** The rows of match `m` after `_update_players_state` are its rows before, restatused. */
  lemma {:induction false} PlayersOfAfterUpdate(ps: seq<PlayerRecord>, m: MatchId, p: PlayerId,
                                                a: PlayerStatus, o: PlayerStatus)
    ensures PlayersOf(PlayersStateAfter(ps, m, p, a, o), m) == Restatus(PlayersOf(ps, m), p, a, o)
    decreases |ps|
  {
    if ps != [] {
      var n := |ps| - 1;
      var r := PlayersStateAfter(ps, m, p, a, o);
      var init := PlayersStateAfter(ps[..n], m, p, a, o);
      assert r[..n] == init;
      PlayersOfAfterUpdate(ps[..n], m, p, a, o);
      assert PlayersOf(r, m) == PlayersOf(init, m) + (if r[n].matchId == m then [r[n]] else []);
      assert PlayersOf(ps, m) == PlayersOf(ps[..n], m) + (if ps[n].matchId == m then [ps[n]] else []);
      if ps[n].matchId == m {
        assert r[n] == ps[n].(status := if ps[n].player == p then a else o);
        RestatusAppend(PlayersOf(ps[..n], m), ps[n], p, a, o);
        assert PlayersOf(r, m) == PlayersOf(init, m) + [r[n]];
      } else {
        assert r[n].matchId != m;
        assert PlayersOf(r, m) == PlayersOf(init, m);
        assert PlayersOf(ps, m) == PlayersOf(ps[..n], m);
      }
    }
  }

  /** When nobody in `q` is `p`, restatusing gives every row the other status. */
  lemma {:induction false} RestatusWithoutActor(q: seq<PlayerRecord>, p: PlayerId, a: PlayerStatus, o: PlayerStatus)
    requires a != o
    requires forall k :: 0 <= k < |q| ==> q[k].player != p
    ensures |Restatus(q, p, a, o)| == |q|
    ensures CountStatus(Restatus(q, p, a, o), a) == 0
    ensures CountStatus(Restatus(q, p, a, o), o) == |q|
  {
    if q != [] {
      var n := |q| - 1;
      RestatusWithoutActor(q[..n], p, a, o);
      CountStatusAppend(Restatus(q[..n], p, a, o), q[n].(status := o), a);
      CountStatusAppend(Restatus(q[..n], p, a, o), q[n].(status := o), o);
    }
  }

  /** When `p` holds exactly one row of `q`, restatusing gives one row `a` and all others `o`. */
  lemma {:induction false} RestatusWithActor(q: seq<PlayerRecord>, p: PlayerId, a: PlayerStatus, o: PlayerStatus, k: nat)
    requires a != o
    requires k < |q| && q[k].player == p
    requires forall j :: 0 <= j < |q| && j != k ==> q[j].player != p
    ensures |Restatus(q, p, a, o)| == |q|
    ensures CountStatus(Restatus(q, p, a, o), a) == 1
    ensures CountStatus(Restatus(q, p, a, o), o) == |q| - 1
    decreases |q|
  {
    var n := |q| - 1;
    var init := q[..n];
    var x := q[n].(status := if q[n].player == p then a else o);
    assert q == init + [q[n]];
    RestatusAppend(init, q[n], p, a, o);
    if k == n {
      assert forall j :: 0 <= j < |init| ==> init[j].player != p;
      RestatusWithoutActor(init, p, a, o);
    } else {
      assert forall j :: 0 <= j < |init| && j != k ==> init[j].player != p;
      RestatusWithActor(init, p, a, o, k);
    }
    CountStatusAppend(Restatus(init, p, a, o), x, a);
    CountStatusAppend(Restatus(init, p, a, o), x, o);
  }

  /**
   * After `_update_players_state(m, p, a, o)` by a participant `p`, exactly one row of the
   * match has status `a` and all the others have status `o`: a turn leaves exactly one
   * participant INACTIVE and the rest ACTIVE, a winning turn exactly one WIN and the rest LOSS.
   */
  lemma ActorAndOthers(ps: seq<PlayerRecord>, m: MatchId, p: PlayerId, a: PlayerStatus, o: PlayerStatus)
    requires SlotsDistinct(ps)
    requires InMatch(ps, m, p)
    requires a != o
    ensures var after := PlayersOf(PlayersStateAfter(ps, m, p, a, o), m);
      CountStatus(after, a) == 1 && CountStatus(after, o) == |after| - 1
  {
    PlayersOfAfterUpdate(ps, m, p, a, o);
    PlayersOfDistinct(ps, m);
    PlayersOfMembers(ps, m);
    var q := PlayersOf(ps, m);
    var i :| 0 <= i < |ps| && ps[i].matchId == m && ps[i].player == p;
    assert ps[i] in q;
    var k :| 0 <= k < |q| && q[k] == ps[i];
    forall j | 0 <= j < |q| && j != k
      ensures q[j].player != p
    {
      assert q[j] in ps && q[k] in ps;
      if j < k {
        assert q[j].matchId == q[k].matchId;
      } else {
        assert q[k].matchId == q[j].matchId;
      }
    }
    RestatusWithActor(q, p, a, o, k);
  }

  /**
   * A turn that does not win, played by a participant of an IN_PROGRESS match, leaves exactly
   * one participant ACTIVE (the opponent) and exactly one INACTIVE (the acting player).
   */
  lemma TurnLeavesOneActive(ps: seq<PlayerRecord>, m: MatchId, p: PlayerId)
    requires SlotsDistinct(ps)
    requires InMatch(ps, m, p)
    requires |PlayersOf(ps, m)| == 2
    ensures var after := PlayersOf(PlayersStateAfter(ps, m, p, Inactive, Active), m);
      |after| == 2 && CountStatus(after, Active) == 1 && CountStatus(after, Inactive) == 1
  {
    ActorAndOthers(ps, m, p, Inactive, Active);
    PlayersOfSameSlots(PlayersStateAfter(ps, m, p, Inactive, Active), ps, m);
  }

  /**
   * Abandoning an IN_PROGRESS match with both slots taken leaves exactly one participant
   * DISMISSED (the leaver) and exactly one WIN (the opponent).
   */
  lemma AbandonAwardsOpponent(ps: seq<PlayerRecord>, m: MatchId, p: PlayerId)
    requires SlotsDistinct(ps)
    requires InMatch(ps, m, p)
    requires |PlayersOf(ps, m)| == 2
    ensures var after := PlayersOf(AbandonedPlayers(ps, m, p, InProgress), m);
      |after| == 2 && CountStatus(after, Dismissed) == 1 && CountStatus(after, Win) == 1
  {
    assert AbandonedPlayers(ps, m, p, InProgress) == PlayersStateAfter(ps, m, p, Dismissed, Win);
    ActorAndOthers(ps, m, p, Dismissed, Win);
    PlayersOfSameSlots(PlayersStateAfter(ps, m, p, Dismissed, Win), ps, m);
  }

  /** A participant of a match with a single row holds that row. */
  lemma SoleParticipant(ps: seq<PlayerRecord>, m: MatchId, p: PlayerId)
    requires InMatch(ps, m, p)
    requires |PlayersOf(ps, m)| == 1
    ensures PlayersOf(ps, m)[0].player == p
  {
    var q := PlayersOf(ps, m);
    PlayersOfMembers(ps, m);
    var i :| 0 <= i < |ps| && ps[i].matchId == m && ps[i].player == p;
    assert ps[i] in q;
    assert q == [q[0]];
  }

  /**
   * Abandoning a NEW match by its host leaves the host alone in it, DISMISSED, and assigns
   * no WIN to anyone.
   */
  lemma AbandonNewAwardsNothing(ps: seq<PlayerRecord>, m: MatchId, p: PlayerId)
    requires InMatch(ps, m, p)
    requires |PlayersOf(ps, m)| == 1
    ensures PlayersOf(AbandonedPlayers(ps, m, p, New), m) == [PlayersOf(ps, m)[0].(status := Dismissed)]
  {
    var q := PlayersOf(ps, m);
    var after := AbandonedPlayers(ps, m, p, New);
    var r := PlayersOf(after, m);
    SoleParticipant(ps, m, p);
    PlayersOfSameSlots(after, ps, m);
    assert |r| == 1 && SameSlots(r, q);
    assert r[0].status == Dismissed by {
      PlayersOfMembers(after, m);
      assert r[0] in r;
      var k :| 0 <= k < |after| && after[k] == r[0];
      assert ps[k].matchId == m && ps[k].player == p;
    }
    assert r[0] == PlayerRecord(q[0].player, q[0].matchId, q[0].side, Dismissed);
    assert r == [r[0]];
  }

  // ---------------------------------------------------------------- repository invariant

  /** The slot-count rule a match's status imposes: NEW has its host alone, IN_PROGRESS both players. */
  predicate SlotsFit(status: MatchStatus, count: nat)
  {
    && 1 <= count
    && (status == New ==> count == 1)
    && (status == InProgress ==> count == 2)
  }

  /** Every match's player count fits its status. */
  ghost predicate SlotCounts(ms: seq<MatchRecord>, ps: seq<PlayerRecord>)
  {
    forall id: MatchId :: id < |ms| ==> SlotsFit(ms[id].status, |PlayersOf(ps, id)|)
  }

  /**
   * What every model operation keeps: join codes are unique, each match has a state blob and
   * a known map, each row refers to an existing match, within one match no side and no
   * player occurs twice, and each match's player count fits its status.
   */
  ghost predicate RepoValid(cat: MapCatalog, ms: seq<MatchRecord>, ps: seq<PlayerRecord>, st: map<MatchId, string>)
  {
    && cat.Consistent()
    && CodesUnique(ms)
    && (forall id: MatchId :: id in st <==> id < |ms|)
    && (forall id: MatchId :: id < |ms| ==> ms[id].mapId in cat.codeOf)
    && (forall k :: 0 <= k < |ps| ==> ps[k].matchId < |ms|)
    && SlotsDistinct(ps)
    && SlotCounts(ms, ps)
  }

  /** Creating a match with a fresh code and its host's row keeps the invariant. */
  lemma CreateKeepsValid(cat: MapCatalog, ms: seq<MatchRecord>, ps: seq<PlayerRecord>, st: map<MatchId, string>,
                         code: string, mapId: MapId, host: PlayerId, side: Side)
    requires RepoValid(cat, ms, ps, st)
    requires mapId in cat.codeOf
    requires forall id: MatchId :: id < |ms| ==> ms[id].code != code
    ensures RepoValid(cat, ms + [MatchRecord(code, New, mapId)],
                      ps + [PlayerRecord(host, |ms|, side, Active)], st[|ms| := EMPTY_MATCH_STATE])
  {
    var id := |ms|;
    var row := PlayerRecord(host, id, side, Active);
    var ms' := ms + [MatchRecord(code, New, mapId)];
    var ps' := ps + [row];
    forall i, j | 0 <= i < j < |ms'|
      ensures ms'[i].code != ms'[j].code
    {
      if j < id {
        assert ms'[i] == ms[i] && ms'[j] == ms[j];
      } else {
        assert ms'[i] == ms[i];
      }
    }
    AppendKeepsSlotsDistinct(ps, row);
    PlayersOfAbsent(ps, id);
    forall m: MatchId | m < |ms'|
      ensures SlotsFit(ms'[m].status, |PlayersOf(ps', m)|)
    {
      PlayersOfAppend(ps, row, m);
      if m < id {
        assert ms'[m] == ms[m];
      }
    }
  }

  /** A joiner on the available side of a one-player match, which becomes IN_PROGRESS, keeps the invariant. */
  lemma JoinKeepsValid(cat: MapCatalog, ms: seq<MatchRecord>, ps: seq<PlayerRecord>, st: map<MatchId, string>,
                       id: MatchId, player: PlayerId)
    requires RepoValid(cat, ms, ps, st)
    requires id < |ms| && |PlayersOf(ps, id)| == 1 && !InMatch(ps, id, player)
    ensures var row := PlayerRecord(player, id, AvailableSide(PlayersOf(ps, id)).value, Active);
      RepoValid(cat, ms[id := ms[id].(status := InProgress)], ps + [row], st)
  {
    var slots := PlayersOf(ps, id);
    var row := PlayerRecord(player, id, AvailableSide(slots).value, Active);
    var ms' := ms[id := ms[id].(status := InProgress)];
    var ps' := ps + [row];
    assert SlotsDistinct(ps') by {
      PlayersOfMembers(ps, id);
      forall k | 0 <= k < |ps| && ps[k].matchId == id
        ensures ps[k].side != row.side && ps[k].player != row.player
      {
        assert ps[k] in slots;
      }
      AppendKeepsSlotsDistinct(ps, row);
    }
    assert forall m :: 0 <= m < |ms'| ==> ms'[m].code == ms[m].code && ms'[m].mapId == ms[m].mapId;
    forall m: MatchId | m < |ms'|
      ensures SlotsFit(ms'[m].status, |PlayersOf(ps', m)|)
    {
      PlayersOfAppend(ps, row, m);
    }
  }

  /** Changing statuses of rows only keeps the invariant. */
  lemma RestatusKeepsValid(cat: MapCatalog, ms: seq<MatchRecord>, ps: seq<PlayerRecord>, st: map<MatchId, string>,
                           ps': seq<PlayerRecord>)
    requires RepoValid(cat, ms, ps, st)
    requires SameSlots(ps', ps)
    ensures RepoValid(cat, ms, ps', st)
  {
    forall m: MatchId
      ensures |PlayersOf(ps', m)| == |PlayersOf(ps, m)|
    {
      PlayersOfSameSlots(ps', ps, m);
    }
  }

  /** A match status that fits the match's player count keeps the invariant. */
  lemma MatchStatusKeepsValid(cat: MapCatalog, ms: seq<MatchRecord>, ps: seq<PlayerRecord>, st: map<MatchId, string>,
                              id: MatchId, s: MatchStatus)
    requires RepoValid(cat, ms, ps, st)
    requires id < |ms| && (s == Ended || s == Forfeit)
    ensures RepoValid(cat, ms[id := ms[id].(status := s)], ps, st)
  {
    assert SlotsFit(ms[id].status, |PlayersOf(ps, id)|);
  }

  // ---------------------------------------------------------------- the repository and the model operations

  class Store {
    /** Map catalog: translation of map codes to map ids and back. */
    const catalog: MapCatalog
    /** Match table; a match's id is its index. */
    var matches: seq<MatchRecord>
    /** Player-in-match table. */
    var players: seq<PlayerRecord>
    /** State blob of each match. */
    var states: map<MatchId, string>

    ghost predicate Valid()
      reads this
    {
      RepoValid(catalog, matches, players, states)
    }

    constructor (catalog: MapCatalog)
      requires catalog.Consistent()
      ensures Valid()
      ensures this.catalog == catalog && matches == [] && players == [] && states == map[]
    {
      this.catalog := catalog;
      matches := [];
      players := [];
      states := map[];
    }

    /** The player holds a slot in the match with join code `code`, when that match exists. */
    predicate ParticipantIfExists(code: string, player: PlayerId)
      reads this
    {
      var found := FindMatchByCode(matches, code);
      found.Some? ==> InMatch(players, found.value, player)
    }

    /** The match with join code `code`, when it exists, has its host alone and `player` is not in it. */
    predicate JoinableIfExists(code: string, player: PlayerId)
      reads this
    {
      var found := FindMatchByCode(matches, code);
      found.Some? ==> |PlayersOf(players, found.value)| == 1 && !InMatch(players, found.value, player)
    }

    // ------------------------------------------------------------ queries

    /** `get_match_details`: the public view of the match with join code `code`. */
    function GetMatchDetails(code: string): (r: Option<MatchDetails>)
      reads this
      requires Valid()
      ensures r.None? <==> forall id: MatchId :: id < |matches| ==> matches[id].code != code
      ensures forall id: MatchId :: id < |matches| && matches[id].code == code ==>
        r == Some(MatchDetails(code, matches[id].status, catalog.codeOf[matches[id].mapId],
                               AvailableSide(PlayersOf(players, id))))
    {
      match FindMatchByCode(matches, code)
      case None => None
      case Some(id) =>
        Some(MatchDetails(code, matches[id].status, catalog.codeOf[matches[id].mapId],
                          AvailableSide(PlayersOf(players, id))))
    }

    /** `get_player_status_in_match`: a participant's side and status in the match. */
    function GetPlayerStatusInMatch(code: string, player: PlayerId): (r: Option<PlayerStatusView>)
      reads this
      requires Valid()
      requires ParticipantIfExists(code, player)
      ensures r.None? <==> forall id: MatchId :: id < |matches| ==> matches[id].code != code
      ensures forall id: MatchId, k ::
        id < |matches| && matches[id].code == code &&
        0 <= k < |players| && players[k].matchId == id && players[k].player == player ==>
        r == Some(PlayerStatusView(code, matches[id].status, catalog.codeOf[matches[id].mapId],
                                   players[k].side, players[k].status))
    {
      match FindMatchByCode(matches, code)
      case None => None
      case Some(id) =>
        FindPlayerExact(players, id, player);
        var row := FindPlayer(players, id, player).value;
        Some(PlayerStatusView(code, matches[id].status, catalog.codeOf[matches[id].mapId], row.side, row.status))
    }

    /** `get_match_state`: a participant's view of the match together with its state blob. */
    function GetMatchState(code: string, player: PlayerId): (r: Option<MatchStateView>)
      reads this
      requires Valid()
      requires ParticipantIfExists(code, player)
      ensures r.None? <==> forall id: MatchId :: id < |matches| ==> matches[id].code != code
      ensures forall id: MatchId, k ::
        id < |matches| && matches[id].code == code &&
        0 <= k < |players| && players[k].matchId == id && players[k].player == player ==>
        r == Some(MatchStateView(code, matches[id].status, catalog.codeOf[matches[id].mapId],
                                 states[id], players[k].status, players[k].side))
    {
      match FindMatchByCode(matches, code)
      case None => None
      case Some(id) =>
        FindPlayerExact(players, id, player);
        var row := FindPlayer(players, id, player).value;
        Some(MatchStateView(code, matches[id].status, catalog.codeOf[matches[id].mapId],
                            states[id], row.status, row.side))
    }

    /** `get_player_matches`: one entry per row of the player, in table order. */
    method GetPlayerMatches(player: PlayerId) returns (r: seq<PlayerMatchView>)
      requires Valid()
      ensures var mine := PlayerRecordsOf(players, player);
        && |r| == |mine|
        && forall i :: 0 <= i < |r| ==>
             && mine[i].player == player
             && mine[i].matchId < |matches|
             && r[i].joinCode == matches[mine[i].matchId].code
             && r[i].matchStatus == matches[mine[i].matchId].status
             && r[i].side == mine[i].side
             && r[i].playerStatus == mine[i].status
             && r[i].mapCode == catalog.codeOf[matches[mine[i].matchId].mapId]
    {
      var visible := PlayerRecordsOf(players, player);
      PlayerRecordsOfMembers(players, player);
      r := [];
      for i := 0 to |visible|
        invariant |r| == i
        invariant forall j :: 0 <= j < i ==>
          && visible[j] in players
          && visible[j].player == player
          && r[j].joinCode == matches[visible[j].matchId].code
          && r[j].matchStatus == matches[visible[j].matchId].status
          && r[j].side == visible[j].side
          && r[j].playerStatus == visible[j].status
          && r[j].mapCode == catalog.codeOf[matches[visible[j].matchId].mapId]
      {
        var row := visible[i];
        assert row in players;
        var details := matches[row.matchId];
        var mapCode := catalog.codeOf[details.mapId];
        r := r + [PlayerMatchView(details.code, details.status, row.side, row.status, mapCode)];
      }
    }

    // ------------------------------------------------------------ operations

    /** The retry loop of `create_new_match`: the first candidate code no match has. */
    method FindUnusedCode(candidates: seq<string>) returns (code: string)
      requires forall c :: c in candidates ==> |c| == MAP_CODE_LENGTH
      requires exists f :: 0 <= f < |candidates| && FindMatchByCode(matches, candidates[f]).None?
      ensures |code| == MAP_CODE_LENGTH
      ensures forall id: MatchId :: id < |matches| ==> matches[id].code != code
      ensures exists i :: 0 <= i < |candidates| && candidates[i] == code &&
                          forall j :: 0 <= j < i ==> FindMatchByCode(matches, candidates[j]).Some?
    {
      var i := 0;
      code := candidates[0];
      while FindMatchByCode(matches, code).Some?
        invariant 0 <= i < |candidates| && code == candidates[i]
        invariant forall j :: 0 <= j < i ==> FindMatchByCode(matches, candidates[j]).Some?
        invariant exists f :: i <= f < |candidates| && FindMatchByCode(matches, candidates[f]).None?
        decreases |candidates| - i
      {
        i := i + 1;
        code := candidates[i];
      }
    }

    /** `create_new_match`: a NEW match with a fresh join code, its host's slot and an empty state. */
    method CreateNewMatch(hostId: PlayerId, hostSide: Side, mapCode: string, candidates: seq<string>)
      returns (code: string)
      requires Valid()
      requires mapCode in catalog.idOf
      requires forall c :: c in candidates ==> |c| == MAP_CODE_LENGTH
      requires exists f :: 0 <= f < |candidates| && FindMatchByCode(matches, candidates[f]).None?
      modifies this
      ensures Valid()
      ensures |code| == MAP_CODE_LENGTH && code in candidates
      ensures forall id: MatchId :: id < |old(matches)| ==> old(matches)[id].code != code
      ensures matches == old(matches) + [MatchRecord(code, New, catalog.idOf[mapCode])]
      ensures players == old(players) + [PlayerRecord(hostId, |old(matches)|, hostSide, Active)]
      ensures states == old(states)[|old(matches)| := EMPTY_MATCH_STATE]
      ensures GetMatchDetails(code) ==
        Some(MatchDetails(code, New, mapCode, Some(if hostSide == Blue then Red else Blue)))
    {
      var mapId := catalog.idOf[mapCode];
      code := FindUnusedCode(candidates);
      var id := |matches|;
      CreateKeepsValid(catalog, matches, players, states, code, mapId, hostId, hostSide);
      PlayersOfAppend(players, PlayerRecord(hostId, id, hostSide, Active), id);
      PlayersOfAbsent(players, id);
      matches := matches + [MatchRecord(code, New, mapId)];
      players := players + [PlayerRecord(hostId, id, hostSide, Active)];
      states := states[id := EMPTY_MATCH_STATE];
      assert matches[id].code == code;
    }

    /** `add_player_to_match`: the joiner takes the free side and the match is IN_PROGRESS. */
    method AddPlayerToMatch(player: PlayerId, code: string) returns (ok: bool)
      requires Valid()
      requires JoinableIfExists(code, player)
      modifies this
      ensures Valid()
      ensures ok <==> FindMatchByCode(old(matches), code).Some?
      ensures !ok ==> matches == old(matches) && players == old(players) && states == old(states)
      ensures ok ==>
        var id := FindMatchByCode(old(matches), code).value;
        var host := PlayersOf(old(players), id)[0];
        var joiner := PlayerRecord(player, id, if host.side == Blue then Red else Blue, Active);
        && matches == old(matches)[id := old(matches)[id].(status := InProgress)]
        && players == old(players) + [joiner]
        && states == old(states)
        && PlayersOf(players, id) == [host, joiner]
    {
      var found := FindMatchByCode(matches, code);
      if found.None? {
        return false;
      }
      var id := found.value;
      var side := AvailableSide(PlayersOf(players, id));
      var row := PlayerRecord(player, id, side.value, Active);
      JoinKeepsValid(catalog, matches, players, states, id, player);
      PlayersOfAppend(players, row, id);
      players := players + [row];
      matches := matches[id := matches[id].(status := InProgress)];
      return true;
    }

    /** `_update_players_state`: the acting player gets one status, the rest of the match another. */
    method UpdatePlayersState(id: MatchId, player: PlayerId, thatStatus: PlayerStatus, otherStatus: PlayerStatus)
      requires Valid()
      modifies this
      ensures Valid()
      ensures players == PlayersStateAfter(old(players), id, player, thatStatus, otherStatus)
      ensures matches == old(matches) && states == old(states)
    {
      var after := SetOtherPlayersStatus(players, id, player, otherStatus);
      after := SetPlayerStatus(after, id, player, thatStatus);
      RestatusKeepsValid(catalog, matches, players, states, after);
      players := after;
    }

    /** `update_match_state`: store the turn, hand the turn over, or end the match on a win. */
    method UpdateMatchState(code: string, serializedTurn: string, player: PlayerId) returns (ok: bool)
      requires Valid()
      modifies this
      ensures Valid()
      ensures ok <==> FindMatchByCode(old(matches), code).Some?
      ensures !ok ==> matches == old(matches) && players == old(players) && states == old(states)
      ensures ok ==>
        var id := FindMatchByCode(old(matches), code).value;
        && states == old(states)[id := serializedTurn]
        && (IsWinningTurn(serializedTurn) ==>
              && matches == old(matches)[id := old(matches)[id].(status := Ended)]
              && players == PlayersStateAfter(old(players), id, player, Win, Loss))
        && (!IsWinningTurn(serializedTurn) ==>
              && matches == old(matches)
              && players == PlayersStateAfter(old(players), id, player, Inactive, Active))
    {
      var found := FindMatchByCode(matches, code);
      if found.None? {
        return false;
      }
      var id := found.value;
      ghost var before := players;
      StateWriteKeepsValid(id, serializedTurn);
      states := states[id := serializedTurn];
      UpdatePlayersState(id, player, Inactive, Active);
      if IsWinningTurn(serializedTurn) {
        UpdatePlayersState(id, player, Win, Loss);
        PlayersStateAfterOverrides(before, id, player, Inactive, Active, Win, Loss);
        MatchStatusKeepsValid(catalog, matches, players, states, id, Ended);
        matches := matches[id := matches[id].(status := Ended)];
      }
      return true;
    }

    /**
     * The state a participant reads back is the blob last stored for the match: after
     * `update_match_state` stored a turn, `get_match_state` returns that turn.
     */
    lemma StateReadBack(code: string, player: PlayerId, id: MatchId)
      requires Valid()
      requires id < |matches| && matches[id].code == code && InMatch(players, id, player)
      ensures ParticipantIfExists(code, player)
      ensures GetMatchState(code, player).Some? && GetMatchState(code, player).value.data == states[id]
    {
      FindMatchByCodeExact(matches, code, id);
      var k :| 0 <= k < |players| && players[k].matchId == id && players[k].player == player;
    }

    /**
     * A participant's turn followed by the participant's read of the match state, as the turn
     * endpoint chains them: the view carries the stored turn and the player's new status; a
     * winning turn ends the match with one WIN and the rest LOSS, and any other turn in an
     * IN_PROGRESS match leaves exactly one participant ACTIVE and one INACTIVE.
     */
    method SubmitTurnAndRead(code: string, serializedTurn: string, player: PlayerId) returns (view: MatchStateView)
      requires Valid()
      requires FindMatchByCode(matches, code).Some?
      requires InMatch(players, FindMatchByCode(matches, code).value, player)
      modifies this
      ensures Valid()
      ensures var id := FindMatchByCode(old(matches), code).value;
        var after := PlayersOf(players, id);
        && view.data == serializedTurn
        && view.joinCode == code
        && view.playerStatus == (if IsWinningTurn(serializedTurn) then Win else Inactive)
        && (IsWinningTurn(serializedTurn) ==>
              view.matchStatus == Ended && CountStatus(after, Win) == 1 && CountStatus(after, Loss) == |after| - 1)
        && (!IsWinningTurn(serializedTurn) && old(matches)[id].status == InProgress ==>
              view.matchStatus == InProgress && CountStatus(after, Active) == 1 && CountStatus(after, Inactive) == 1)
      ensures var id := FindMatchByCode(old(matches), code).value;
        var win := IsWinningTurn(serializedTurn);
        && states == old(states)[id := serializedTurn]
        && matches == (if win then old(matches)[id := old(matches)[id].(status := Ended)] else old(matches))
        && players == PlayersStateAfter(old(players), id, player,
                                        if win then Win else Inactive, if win then Loss else Active)
        && view.matchStatus == matches[id].status
        && view.mapCode == catalog.codeOf[matches[id].mapId]
        && forall k :: 0 <= k < |old(players)| && old(players)[k].matchId == id && old(players)[k].player == player ==>
             view.playerSide == old(players)[k].side
    {
      var id := FindMatchByCode(matches, code).value;
      ghost var before := players;
      ghost var k :| 0 <= k < |players| && players[k].matchId == id && players[k].player == player;
      OneRowPerPlayer(before, id, player, k);
      var ok := UpdateMatchState(code, serializedTurn, player);
      ghost var actor := if IsWinningTurn(serializedTurn) then Win else Inactive;
      assert players == PlayersStateAfter(before, id, player, actor, if IsWinningTurn(serializedTurn) then Loss else Active);
      assert players[k] == PlayerRecord(player, id, before[k].side, actor);
      if IsWinningTurn(serializedTurn) {
        ActorAndOthers(before, id, player, Win, Loss);
      } else if matches[id].status == InProgress {
        TurnLeavesOneActive(before, id, player);
      }
      assert matches[id].code == code;
      StateReadBack(code, player, id);
      assert GetMatchState(code, player) == Some(MatchStateView(code, matches[id].status,
        catalog.codeOf[matches[id].mapId], states[id], actor, before[k].side));
      view := GetMatchState(code, player).value;
    }

    /** Writing a match's state blob keeps the invariant. */
    lemma StateWriteKeepsValid(id: MatchId, blob: string)
      requires Valid() && id < |matches|
      ensures RepoValid(catalog, matches, players, states[id := blob])
    {
    }

    /** `abandon_match`: forfeit or end the match by its status; the leaver is DISMISSED. */
    method AbandonMatch(code: string, player: PlayerId)
      requires Valid()
      requires FindMatchByCode(matches, code).Some?
      modifies this
      ensures Valid()
      ensures var id := FindMatchByCode(old(matches), code).value;
        var before := old(matches)[id].status;
        && matches == old(matches)[id := old(matches)[id].(status := AbandonedStatus(before))]
        && players == AbandonedPlayers(old(players), id, player, before)
        && states == old(states)
    {
      var found := FindMatchByCode(matches, code);
      var id := found.value;
      var status := matches[id].status;
      var after := players;
      if status == InProgress {
        MatchStatusKeepsValid(catalog, matches, players, states, id, Forfeit);
        matches := matches[id := matches[id].(status := Forfeit)];
        after := SetOtherPlayersStatus(after, id, player, Win);
      } else if status == New {
        MatchStatusKeepsValid(catalog, matches, players, states, id, Ended);
        matches := matches[id := matches[id].(status := Ended)];
      }
      after := SetPlayerStatus(after, id, player, Dismissed);
      RestatusKeepsValid(catalog, matches, players, states, after);
      players := after;
    }
  }
}
