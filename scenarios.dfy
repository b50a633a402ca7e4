/**
 * End-to-end scenarios of the match lifecycle on a concrete store: create and join, a turn
 * without a win, a winning turn, and abandoning a match nobody joined.
 */
module MatchScenarios {
  import opened MatchTypes
  import opened MatchRepository
  import opened TurnText
  import opened MatchModel

  const HOST: PlayerId := 1
  const GUEST: PlayerId := 2

  /** A turn whose text has no "w" at all. */
  const QUIET_TURN: string := "{\"move\":1}"

  lemma QuietTurnDoesNotWin()
    ensures !IsWinningTurn(QUIET_TURN)
  {
    NoMarkerLetterNeverWins(QUIET_TURN);
  }

  /** A catalog with one map, "MAP1", whose id is 1. */
  function OneMapCatalog(): (cat: MapCatalog)
    ensures cat.Consistent()
    ensures "MAP1" in cat.idOf && cat.idOf["MAP1"] == 1
  {
    MapCatalog(map["MAP1" := 1], map[1 := "MAP1"])
  }

  /** Host on BLUE creates a match from the catalog's only map; the match is NEW and offers RED. */
  method CreateHosted() returns (store: Store, code: string)
    ensures fresh(store) && store.Valid()
    ensures code == "ABCDE"
    ensures store.matches == [MatchRecord("ABCDE", New, 1)]
    ensures store.players == [PlayerRecord(HOST, 0, Blue, Active)]
  {
    store := new Store(OneMapCatalog());
    var candidates := ["ABCDE"];
    assert FindMatchByCode(store.matches, candidates[0]).None?;
    code := store.CreateNewMatch(HOST, Blue, "MAP1", candidates);
    assert code == "ABCDE";
    assert store.GetMatchDetails(code).value.availableSide == Some(Red);
    assert store.players == [PlayerRecord(HOST, 0, Blue, Active)];
  }

  /** The guest joins the hosted match, is given RED, and the match is IN_PROGRESS. */
  method JoinHosted(store: Store)
    requires store.Valid()
    requires store.matches == [MatchRecord("ABCDE", New, 1)]
    requires store.players == [PlayerRecord(HOST, 0, Blue, Active)]
    modifies store
    ensures store.Valid()
    ensures store.matches == [MatchRecord("ABCDE", InProgress, 1)]
    ensures store.players == [PlayerRecord(HOST, 0, Blue, Active), PlayerRecord(GUEST, 0, Red, Active)]
  {
    assert PlayersOf(store.players, 0) == store.players;
    assert FindMatchByCode(store.matches, "ABCDE") == Some(0);
    var joined := store.AddPlayerToMatch(GUEST, "ABCDE");
    assert joined;
    assert store.matches[0].status == InProgress;
    assert store.players == [PlayerRecord(HOST, 0, Blue, Active), PlayerRecord(GUEST, 0, Red, Active)];
  }

  /** After the join, the guest plays a turn without the marker: the guest waits, the host is to move. */
  method TurnWithoutWin(store: Store)
    requires store.Valid()
    requires store.matches == [MatchRecord("ABCDE", InProgress, 1)]
    requires store.players == [PlayerRecord(HOST, 0, Blue, Active), PlayerRecord(GUEST, 0, Red, Active)]
    modifies store
    ensures store.Valid()
    ensures store.matches == [MatchRecord("ABCDE", InProgress, 1)]
    ensures store.players == [PlayerRecord(HOST, 0, Blue, Active), PlayerRecord(GUEST, 0, Red, Inactive)]
  {
    var quiet := QUIET_TURN;
    QuietTurnDoesNotWin();
    assert FindMatchByCode(store.matches, "ABCDE") == Some(0);
    var played := store.UpdateMatchState("ABCDE", quiet, GUEST);
    assert played;
    assert store.matches[0].status == InProgress;
    assert store.players[0].status == Active && store.players[1].status == Inactive;
    assert store.players == [PlayerRecord(HOST, 0, Blue, Active), PlayerRecord(GUEST, 0, Red, Inactive)];
    assert store.states[0] == quiet;
  }

  /** The host then plays a winning turn: the host wins, the guest loses, the match is ENDED. */
  method WinningTurn(store: Store)
    requires store.Valid()
    requires store.matches == [MatchRecord("ABCDE", InProgress, 1)]
    requires store.players == [PlayerRecord(HOST, 0, Blue, Active), PlayerRecord(GUEST, 0, Red, Inactive)]
    modifies store
    ensures store.Valid()
    ensures store.matches == [MatchRecord("ABCDE", Ended, 1)]
    ensures store.players == [PlayerRecord(HOST, 0, Blue, Win), PlayerRecord(GUEST, 0, Red, Loss)]
  {
    var winning := "{\"win\":true}";
    MarkerAnywhereWins("{\"", "\":true}");
    assert winning == "{\"" + WIN_MARKER + "\":true}";
    assert FindMatchByCode(store.matches, "ABCDE") == Some(0);
    var won := store.UpdateMatchState("ABCDE", winning, HOST);
    assert won;
    assert store.matches[0].status == Ended;
    assert store.players[0].status == Win && store.players[1].status == Loss;
    assert store.players == [PlayerRecord(HOST, 0, Blue, Win), PlayerRecord(GUEST, 0, Red, Loss)];
  }

  /** The first three scenarios in sequence, each starting from the tables the previous one leaves. */
  method CreateJoinPlayWin()
  {
    var store, code := CreateHosted();
    JoinHosted(store);
    TurnWithoutWin(store);
    WinningTurn(store);
  }

  /** The host abandons a match nobody joined: it ends, the host is DISMISSED, nobody wins. */
  method AbandonUnjoined()
  {
    var store := new Store(OneMapCatalog());
    var candidates := ["QWERT"];
    assert FindMatchByCode(store.matches, candidates[0]).None?;
    var code := store.CreateNewMatch(HOST, Red, "MAP1", candidates);
    assert FindMatchByCode(store.matches, code) == Some(0);
    store.AbandonMatch(code, HOST);
    assert store.matches[0].status == Ended;
    assert store.players == [PlayerRecord(HOST, 0, Red, Dismissed)];
  }
}
