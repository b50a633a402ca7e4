/**
 * The match repository seen as data: the match table is a sequence indexed by match id,
 * the player-in-match table a sequence of rows. The lookups and updates below are the
 * repository calls the match model makes; storage itself is not modelled.
 */
module MatchRepository {
  import opened MatchTypes

  // ---------------------------------------------------------------- match table

  /** The first match id at or after `from` whose join code is `code`. */
  function FindMatchFrom(ms: seq<MatchRecord>, code: string, from: nat): (r: Option<MatchId>)
    requires from <= |ms|
    ensures r.None? <==> forall id: nat :: from <= id < |ms| ==> ms[id].code != code
    ensures r.Some? ==>
      && from <= r.value < |ms|
      && ms[r.value].code == code
      && forall id: nat :: from <= id < r.value ==> ms[id].code != code
    decreases |ms| - from
  {
    if from == |ms| then None
    else if ms[from].code == code then Some(from)
    else FindMatchFrom(ms, code, from + 1)
  }

  /** `get_match_info_by_code`: the match whose join code is `code`, if any. */
  function FindMatchByCode(ms: seq<MatchRecord>, code: string): (r: Option<MatchId>)
    ensures r.None? <==> forall id: nat :: id < |ms| ==> ms[id].code != code
    ensures r.Some? ==> r.value < |ms| && ms[r.value].code == code
  {
    FindMatchFrom(ms, code, 0)
  }

  /** No two matches share a join code. */
  ghost predicate CodesUnique(ms: seq<MatchRecord>)
  {
    forall i, j :: 0 <= i < j < |ms| ==> ms[i].code != ms[j].code
  }

  /** With unique codes, a lookup by code finds exactly the match that has it. */
  lemma FindMatchByCodeExact(ms: seq<MatchRecord>, code: string, id: nat)
    requires CodesUnique(ms)
    requires id < |ms| && ms[id].code == code
    ensures FindMatchByCode(ms, code) == Some(id)
  {
    assert FindMatchByCode(ms, code).Some?;
  }

  // ---------------------------------------------------------------- player table

  /** `get_players_for_match`: the rows of match `m`, in table order. */
  function PlayersOf(ps: seq<PlayerRecord>, m: MatchId): (r: seq<PlayerRecord>)
    ensures |r| <= |ps|
  {
    if ps == [] then []
    else PlayersOf(ps[..|ps| - 1], m) + (if ps[|ps| - 1].matchId == m then [ps[|ps| - 1]] else [])
  }

  /** The rows of match `m` are exactly the table's rows that refer to `m`. */
  lemma {:induction false} PlayersOfMembers(ps: seq<PlayerRecord>, m: MatchId)
    ensures forall x :: x in PlayersOf(ps, m) <==> x in ps && x.matchId == m
  {
    if ps != [] {
      var n := |ps| - 1;
      PlayersOfMembers(ps[..n], m);
      assert ps == ps[..n] + [ps[n]];
    }
  }

  /** `get_player_visible_matches`: the rows of player `p`, in table order. */
  function PlayerRecordsOf(ps: seq<PlayerRecord>, p: PlayerId): (r: seq<PlayerRecord>)
    ensures |r| <= |ps|
  {
    if ps == [] then []
    else PlayerRecordsOf(ps[..|ps| - 1], p) + (if ps[|ps| - 1].player == p then [ps[|ps| - 1]] else [])
  }

  /** The rows of player `p` are exactly the table's rows that refer to `p`. */
  lemma {:induction false} PlayerRecordsOfMembers(ps: seq<PlayerRecord>, p: PlayerId)
    ensures forall x :: x in PlayerRecordsOf(ps, p) <==> x in ps && x.player == p
  {
    if ps != [] {
      var n := |ps| - 1;
      PlayerRecordsOfMembers(ps[..n], p);
      assert ps == ps[..n] + [ps[n]];
    }
  }

  /** Player `p` holds a slot in match `m`. */
  predicate InMatch(ps: seq<PlayerRecord>, m: MatchId, p: PlayerId)
  {
    exists k :: 0 <= k < |ps| && ps[k].matchId == m && ps[k].player == p
  }

  /** `get_player_in_match`: the first row of player `p` in match `m`, if any. */
  function FindPlayer(ps: seq<PlayerRecord>, m: MatchId, p: PlayerId): (r: Option<PlayerRecord>)
    ensures r.None? <==> !InMatch(ps, m, p)
    ensures r.Some? ==> r.value in ps && r.value.matchId == m && r.value.player == p
  {
    if ps == [] then None
    else if ps[0].matchId == m && ps[0].player == p then Some(ps[0])
    else
      var r := FindPlayer(ps[1..], m, p);
      assert InMatch(ps, m, p) ==> InMatch(ps[1..], m, p) by {
        if InMatch(ps, m, p) {
          var k :| 0 <= k < |ps| && ps[k].matchId == m && ps[k].player == p;
          assert k > 0 && ps[1..][k - 1] == ps[k];
        }
      }
      assert InMatch(ps[1..], m, p) ==> InMatch(ps, m, p) by {
        if InMatch(ps[1..], m, p) {
          var k :| 0 <= k < |ps[1..]| && ps[1..][k].matchId == m && ps[1..][k].player == p;
          assert ps[k + 1] == ps[1..][k];
        }
      }
      r
  }

  /** Under the slot invariant a player's row in a match is unique, so the lookup finds exactly it. */
  /** Under distinct slots, row `k` is the only row of player `p` in match `m`. */
  lemma OneRowPerPlayer(ps: seq<PlayerRecord>, m: MatchId, p: PlayerId, k: nat)
    requires SlotsDistinct(ps)
    requires k < |ps| && ps[k].matchId == m && ps[k].player == p
    ensures forall j :: 0 <= j < |ps| && ps[j].matchId == m && ps[j].player == p ==> j == k
  {
  }

  lemma FindPlayerExact(ps: seq<PlayerRecord>, m: MatchId, p: PlayerId)
    requires SlotsDistinct(ps)
    ensures forall k :: 0 <= k < |ps| && ps[k].matchId == m && ps[k].player == p ==>
      FindPlayer(ps, m, p) == Some(ps[k])
  {
    forall k | 0 <= k < |ps| && ps[k].matchId == m && ps[k].player == p
      ensures FindPlayer(ps, m, p) == Some(ps[k])
    {
      assert InMatch(ps, m, p);
      var row := FindPlayer(ps, m, p).value;
      var j :| 0 <= j < |ps| && ps[j] == row;
      assert j == k;
    }
  }

  /** Within one match no side and no player occurs twice. */
  ghost predicate SlotsDistinct(ps: seq<PlayerRecord>)
  {
    forall i, j :: 0 <= i < j < |ps| && ps[i].matchId == ps[j].matchId ==>
      ps[i].side != ps[j].side && ps[i].player != ps[j].player
  }

  /** `ps` and `qs` hold the same slots, row for row; only statuses may differ. */
  ghost predicate SameSlots(ps: seq<PlayerRecord>, qs: seq<PlayerRecord>)
  {
    && |ps| == |qs|
    && forall k :: 0 <= k < |ps| ==>
         ps[k].player == qs[k].player && ps[k].matchId == qs[k].matchId && ps[k].side == qs[k].side
  }

  /** `update_player_status`: the rows of player `p` in match `m` get status `s`. */
  function SetPlayerStatus(ps: seq<PlayerRecord>, m: MatchId, p: PlayerId, s: PlayerStatus): (r: seq<PlayerRecord>)
    ensures SameSlots(r, ps)
    ensures forall k :: 0 <= k < |ps| ==>
      r[k].status == if ps[k].matchId == m && ps[k].player == p then s else ps[k].status
  {
    seq(|ps|, k requires 0 <= k < |ps| =>
      if ps[k].matchId == m && ps[k].player == p then ps[k].(status := s) else ps[k])
  }

  /** `update_other_players_status`: the rows of match `m` not held by `p` get status `s`. */
  function SetOtherPlayersStatus(ps: seq<PlayerRecord>, m: MatchId, p: PlayerId, s: PlayerStatus): (r: seq<PlayerRecord>)
    ensures SameSlots(r, ps)
    ensures forall k :: 0 <= k < |ps| ==>
      r[k].status == if ps[k].matchId == m && ps[k].player != p then s else ps[k].status
  {
    seq(|ps|, k requires 0 <= k < |ps| =>
      if ps[k].matchId == m && ps[k].player != p then ps[k].(status := s) else ps[k])
  }

  // ---------------------------------------------------------------- lemmas

  /** A row added at the end of the table joins the end of its match's row list. */
  lemma PlayersOfAppend(ps: seq<PlayerRecord>, x: PlayerRecord, m: MatchId)
    ensures PlayersOf(ps + [x], m) == PlayersOf(ps, m) + (if x.matchId == m then [x] else [])
  {
    assert (ps + [x])[..|ps|] == ps;
  }

  /** A row whose side and player differ from every row already in its match keeps the slots distinct. */
  lemma AppendKeepsSlotsDistinct(ps: seq<PlayerRecord>, x: PlayerRecord)
    requires SlotsDistinct(ps)
    requires forall k :: 0 <= k < |ps| && ps[k].matchId == x.matchId ==> ps[k].side != x.side && ps[k].player != x.player
    ensures SlotsDistinct(ps + [x])
  {
    var qs := ps + [x];
    forall i, j | 0 <= i < j < |qs| && qs[i].matchId == qs[j].matchId
      ensures qs[i].side != qs[j].side && qs[i].player != qs[j].player
    {
      assert qs[i] == ps[i];
      if j < |ps| {
        assert qs[j] == ps[j];
      }
    }
  }

  /** A match that no row refers to has no players. */
  lemma {:induction false} PlayersOfAbsent(ps: seq<PlayerRecord>, m: MatchId)
    requires forall k :: 0 <= k < |ps| ==> ps[k].matchId != m
    ensures PlayersOf(ps, m) == []
  {
    if ps != [] {
      PlayersOfAbsent(ps[..|ps| - 1], m);
    }
  }

  /** Changing statuses only does not change how many players a match has. */
  lemma {:induction false} PlayersOfSameSlots(ps: seq<PlayerRecord>, qs: seq<PlayerRecord>, m: MatchId)
    requires SameSlots(ps, qs)
    ensures SameSlots(PlayersOf(ps, m), PlayersOf(qs, m))
    decreases |ps|
  {
    if ps != [] {
      var n := |ps| - 1;
      assert SameSlots(ps[..n], qs[..n]);
      PlayersOfSameSlots(ps[..n], qs[..n], m);
      var a, b := PlayersOf(ps[..n], m), PlayersOf(qs[..n], m);
      assert PlayersOf(ps, m) == a + (if ps[n].matchId == m then [ps[n]] else []);
      assert PlayersOf(qs, m) == b + (if qs[n].matchId == m then [qs[n]] else []);
    }
  }

  /** The rows of one match inherit the slot invariant of the whole table. */
  lemma {:induction false} PlayersOfDistinct(ps: seq<PlayerRecord>, m: MatchId)
    requires SlotsDistinct(ps)
    ensures SlotsDistinct(PlayersOf(ps, m))
    decreases |ps|
  {
    if ps != [] {
      var n := |ps| - 1;
      var init, last := ps[..n], ps[n];
      assert SlotsDistinct(init);
      PlayersOfDistinct(init, m);
      PlayersOfMembers(init, m);
      var q := PlayersOf(init, m);
      if last.matchId == m {
        forall i | 0 <= i < |q|
          ensures q[i].side != last.side && q[i].player != last.player
        {
          assert q[i] in init;
          var k :| 0 <= k < n && init[k] == q[i];
          assert ps[k] == q[i] && q[i].matchId == m;
        }
      }
    }
  }

  /** How many rows of `q` are on side `s`. */
  function SideCount(q: seq<PlayerRecord>, s: Side): nat
  {
    if q == [] then 0
    else SideCount(q[..|q| - 1], s) + (if q[|q| - 1].side == s then 1 else 0)
  }

  /** Every row is on one of the two sides. */
  lemma {:induction false} SideCountSplit(q: seq<PlayerRecord>)
    ensures SideCount(q, Blue) + SideCount(q, Red) == |q|
  {
    if q != [] {
      SideCountSplit(q[..|q| - 1]);
    }
  }

  /** A side nobody is on is counted zero times. */
  lemma {:induction false} SideCountZero(q: seq<PlayerRecord>, s: Side)
    requires forall k :: 0 <= k < |q| ==> q[k].side != s
    ensures SideCount(q, s) == 0
  {
    if q != [] {
      SideCountZero(q[..|q| - 1], s);
    }
  }

  /** Under the slot invariant each side of a match is taken at most once. */
  lemma {:induction false} SideCountAtMostOne(q: seq<PlayerRecord>, s: Side)
    requires SlotsDistinct(q)
    requires forall k :: 0 <= k < |q| ==> q[k].matchId == q[0].matchId
    ensures SideCount(q, s) <= 1
  {
    if q != [] {
      var n := |q| - 1;
      SideCountAtMostOne(q[..n], s);
      if q[n].side == s {
        SideCountZero(q[..n], s);
      }
    }
  }

  /** A match never has more than two players: there are only two sides. */
  lemma AtMostTwoPlayers(ps: seq<PlayerRecord>, m: MatchId)
    requires SlotsDistinct(ps)
    ensures |PlayersOf(ps, m)| <= 2
  {
    PlayersOfDistinct(ps, m);
    PlayersOfMembers(ps, m);
    var q := PlayersOf(ps, m);
    if q != [] {
      assert forall k :: 0 <= k < |q| ==> q[k].matchId == q[0].matchId by {
        assert forall k :: 0 <= k < |q| ==> q[k] in q;
      }
      SideCountAtMostOne(q, Blue);
      SideCountAtMostOne(q, Red);
    }
    SideCountSplit(q);
  }
}
