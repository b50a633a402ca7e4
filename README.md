# Match lifecycle of the Tof game server, in Dafny

This project models the match model of the Tof turn-based game server
(`tof_server/models/match.py`). It covers:

- creating a match under a fresh five-character join code;
- working out which side a joining player gets;
- joining a match;
- submitting a turn, with win detection;
- abandoning a match;
- the four read-only views of a match: the public details, a participant's status, a
  participant's state view, and a player's match list.

The repository's three tables are the fields of one class, `MatchModel.Store`:

- `matches`: the match table, indexed by match id;
- `players`: the player-in-match table, in insertion order;
- `states`: the state blob of each match.

The map catalog is a constant of the store. Each state-changing operation of the match
model is a method of `Store`. It performs the same repository writes, in the same order,
and its contract states the new tables in full. The read-only queries are functions of
`Store`: `get_match_details`, `get_player_status_in_match` and `get_match_state`. The
exception is `get_player_matches`, which loops and is a method that changes nothing.
`_get_available_side_for_match` is the module-level function `AvailableSide`, applied to
the rows of one match. `Store.SubmitTurnAndRead` chains a turn and the acting player's
read of the match state, as the turn endpoint of the controller does. What the operations promise is stated once, in pure
functions and lemmas, and each method's contract connects the two:

- the effect of `_update_players_state` and of `abandon_match` on the player table
  (`PlayersStateAfter`, `AbandonedPlayers`);
- the side rule (`AvailableSide`);
- how many participants end a turn ACTIVE, INACTIVE, WIN or LOSS (`ActorAndOthers`,
  `TurnLeavesOneActive`);
- what an abandon awards (`AbandonAwardsOpponent`, `AbandonNewAwardsNothing`).

Every method preserves the repository invariant `MatchModel.RepoValid`:

- join codes are unique;
- every match has a state blob and a known map;
- every row refers to an existing match;
- within a match, no two rows share a side or a player, so a match has at most two players;
- a NEW match has exactly its host;
- an IN_PROGRESS match has exactly two players.

Modules:

- `MatchTypes` (`types.dfy`): records, statuses, sides, the map catalog, the view records.
- `MatchRepository` (`repository.dfy`): the repository reads and writes the match model
  relies on: lookup by code, a match's rows, a player's rows, and the two status updates.
- `TurnText` (`turn_text.dfy`): the win test, a substring search for `"win"` in the
  serialised turn.
- `MatchModel` (`match.dfy`): the store, its operations and the lifecycle lemmas.
- `MatchScenarios` (`scenarios.dfy`): four end-to-end scenarios on a concrete store, chained through their contracts:
  - host on BLUE creates, guest joins and gets RED;
  - the guest plays a turn without the marker;
  - the host plays a winning turn;
  - the host abandons a match nobody joined.

Two behaviours of the code that the model keeps as written:

- `update_match_state` does not check that the acting player takes part in the match. The
  model does not check either. The participant check lives in the controller.
- `abandon_match` does not handle an unknown join code (it subscripts `None`). The model
  makes a known code a precondition.

## Model

| member | source | states |
|---|---|---|
| MatchRepository.FindMatchByCode | tof_server/models/match.py:50-52 | no match when and only when no stored match has the code; otherwise the id of a match that has it |
| MatchRepository.FindMatchByCodeExact | tof_server/models/match.py:33-37 | with unique codes, looking a code up finds exactly the match that carries it |
| MatchRepository.PlayersOfMembers | tof_server/models/match.py:86 | the rows listed for a match are exactly the table rows with that match id |
| MatchRepository.PlayerRecordsOfMembers | tof_server/models/match.py:12 | the rows listed for a player are exactly the table rows of that player |
| MatchRepository.FindPlayer | tof_server/models/match.py:73 | a row is found when and only when the player takes part in the match, and it is that player's row in that match |
| MatchRepository.SetPlayerStatus | tof_server/models/match.py:167 | the acting player's row in the match gets the status; every other row, and every row's slot, is unchanged |
| MatchRepository.SetOtherPlayersStatus | tof_server/models/match.py:166 | every other row of the match gets the status; the acting player's row, other matches and all slots are unchanged |
| MatchRepository.AtMostTwoPlayers | tof_server/models/match.py:84-93 | when no two rows of a match share a side, the match has at most two rows |
| TurnText.Contains | tof_server/models/match.py:153 | true exactly when the word occurs at some position of the text |
| TurnText.MarkerAnywhereWins | tof_server/models/match.py:153 | any serialised turn with "win" anywhere in it ends the match, even when the letters are part of another word |
| TurnText.NoMarkerLetterNeverWins | tof_server/models/match.py:153 | a serialised turn without the letter "w" never ends the match |
| MatchModel.AvailableSide | tof_server/models/match.py:84-93 | a side is offered exactly when the match has one row, and it is not that row's side |
| MatchModel.PlayersStateAfter | tof_server/models/match.py:164-167 | the acting player's row gets the first status, every other row of the match the second, other matches are unchanged, no slot changes |
| MatchModel.PlayersStateAfterOverrides | tof_server/models/match.py:147-158 | a second `_update_players_state` on the same match and player replaces every effect of the first, so a winning turn's INACTIVE/ACTIVE update leaves no trace |
| MatchModel.PlayersOfAfterUpdate | tof_server/models/match.py:164-167 | the rows of the match after the update are its rows before, each restatused by whether it is the acting player's |
| MatchModel.ActorAndOthers | tof_server/models/match.py:147-158 | after the update by a participant, exactly one row of the match has the acting status and all the others have the other status |
| MatchModel.TurnLeavesOneActive | tof_server/models/match.py:147-151 | in a two-player match, a turn that does not win leaves exactly one participant ACTIVE and one INACTIVE |
| MatchModel.AbandonedPlayers | tof_server/models/match.py:177-183 | the leaver is DISMISSED; the other participants become WIN when the match was IN_PROGRESS and are unchanged otherwise; other matches are unchanged |
| MatchModel.AbandonAwardsOpponent | tof_server/models/match.py:177-179 | abandoning an IN_PROGRESS two-player match leaves exactly one DISMISSED row and exactly one WIN row |
| MatchModel.AbandonNewAwardsNothing | tof_server/models/match.py:180-183 | abandoning a NEW match leaves its host alone in it, DISMISSED, and awards no WIN |
| MatchModel.CreateKeepsValid | tof_server/models/match.py:41-43 | a new NEW match with a fresh code, its host's row and a state blob keeps the repository invariant |
| MatchModel.JoinKeepsValid | tof_server/models/match.py:127-132 | a joiner on the available side of a one-player match, which becomes IN_PROGRESS, keeps the invariant |
| MatchModel.RestatusKeepsValid | tof_server/models/match.py:164-167 | changing only row statuses keeps the invariant |
| MatchModel.MatchStatusKeepsValid | tof_server/models/match.py:159 | setting a match to ENDED or FORFEIT keeps the invariant |
| MatchModel.Store.GetMatchDetails | tof_server/models/match.py:48-62 | nothing when the code is unknown; otherwise the code, the match's status, the map code of its map and the side still offered |
| MatchModel.Store.GetPlayerStatusInMatch | tof_server/models/match.py:65-81 | nothing when the code is unknown; otherwise the match's code, status and map code with the participant's side and status |
| MatchModel.Store.GetMatchState | tof_server/models/match.py:96-118 | nothing when the code is unknown; otherwise the match's code, status and map code, its stored state blob, and the participant's status and side |
| MatchModel.Store.GetPlayerMatches | tof_server/models/match.py:10-26 | one entry per row of the player, in table order, carrying that match's code, status and map code and the row's side and status |
| MatchModel.Store.FindUnusedCode | tof_server/models/match.py:33-39 | the result has five characters, no stored match has it, and it is the first candidate that no match has |
| MatchModel.Store.CreateNewMatch | tof_server/models/match.py:29-45 | exactly one NEW match under a fresh five-character code, one ACTIVE host row on the chosen side and one empty state are added; the new match offers the other side |
| MatchModel.Store.AddPlayerToMatch | tof_server/models/match.py:121-134 | false, with nothing written, when the code is unknown; otherwise the joiner's ACTIVE row on the side opposite the host's is added and the match becomes IN_PROGRESS |
| MatchModel.Store.UpdatePlayersState | tof_server/models/match.py:164-167 | the player table becomes PlayersStateAfter of the old table; matches and states are unchanged |
| MatchModel.Store.UpdateMatchState | tof_server/models/match.py:137-161 | false, with nothing written, when the code is unknown; otherwise the blob is replaced by the turn, and either the turn wins (WIN/LOSS and ENDED) or it hands over (INACTIVE/ACTIVE, match status unchanged) |
| MatchModel.Store.SubmitTurnAndRead | tof_server/controllers/match.py:137-142 | a participant's turn followed by the participant's state read: the tables become what `update_match_state` leaves (blob replaced; ENDED with WIN/LOSS on a win, otherwise match unchanged with INACTIVE/ACTIVE); the view returns the stored turn, the match's new status, its map code, and the player's new status (WIN or INACTIVE) and unchanged side; a winning turn leaves one WIN and the rest LOSS, and any other turn in an IN_PROGRESS match leaves exactly one participant ACTIVE and one INACTIVE |
| MatchModel.Store.StateReadBack | tof_server/models/match.py:107-115 | a participant reading the match state receives the blob last stored for the match |
| MatchModel.Store.AbandonMatch | tof_server/models/match.py:170-183 | IN_PROGRESS becomes FORFEIT and NEW becomes ENDED, other statuses stay; the player table becomes AbandonedPlayers of the old one; states are unchanged |

## Left out

- Random code generation (`randcoder`) is not part of this model. The generator's outputs are a parameter: a sequence of candidate codes, each of length 5.
- MatchModel.Store.FindUnusedCode: requires that some candidate is unused. The source retries forever, and the model does not capture the case where no free code is ever drawn.
- MatchModel.Store.CreateNewMatch: requires a known map code, and likewise requires that some candidate is unused. The map check is made by the controller (`tof_server/controllers/match.py:37`) before the call.
- MatchModel.Store.AddPlayerToMatch: requires two things of a found match: it has exactly one row, and the joiner holds no row in it.
  - The second is the controller's `is_in_match` check (`tof_server/controllers/match.py:105`).
  - The first is an assumption about what `is_match_joinable` (`tof_server/controllers/match.py:107`) checks. Its code is not part of this model.
  - Without the row-count requirement, a match with zero or two rows gets no available side, and the source would add a row with no side.
  - Without the second requirement, a host re-joining their own match would get the free side. The source would then add a second row for the same player, which the model's invariant rules out.
- MatchModel.Store.GetPlayerStatusInMatch and MatchModel.Store.GetMatchState: require that the player takes part in a found match, as the controller checks (`tof_server/controllers/match.py:69`, `:86`). The source would fail reading a missing row.
- MatchModel.Store.AbandonMatch: requires that the code is known. The source fails on an unknown code instead of returning a value.
- JSON encoding and decoding are not modelled. A turn is its serialised text; the stored blob and the `data` of the state view are that text.
- The SQL repository is not part of this model. The behaviours the model fixes for it are assumptions:
  - a new match's status is NEW, although `create_new_match` (`tof_server/models/match.py:41`) passes no status;
  - match ids are consecutive indices into the match table, starting at 0;
  - the state blob of a new match is the constant `EMPTY_MATCH_STATE`;
  - a joining player's status is ACTIVE;
  - `get_players_for_match` returns a match's rows in table order;
  - a player's visible matches are all of that player's rows, in table order;
  - `get_player_in_match` returns the player's first row in the match;
  - `update_player_status` and `update_other_players_status` select rows by match id and player id, and change only the status.
- The map repository is a pair of maps between map codes and map ids.
- Concurrency and transactions are not modelled. Operations run one at a time.
- Authentication, the turn validator, the slot limit and the HTTP controllers are not part of this model. Their checks appear only as the preconditions above. The one exception is the turn endpoint's update-then-read sequence, modelled as `Store.SubmitTurnAndRead`.
- MatchModel.Store.SubmitTurnAndRead: requires that the player takes part in a found match, as the controller checks (`tof_server/controllers/match.py:127`). It leaves out the state read and turn validation that come before the update (`tof_server/controllers/match.py:130-135`).
- MatchModel.Store.UpdateMatchState: on a winning turn the intermediate INACTIVE/ACTIVE statuses are overwritten within the same call (`PlayersStateAfterOverrides`). The contract states only the final table.
