# Trivia quest server: a verified model of its game rules

The server runs a board game. Players walk a line of rooms numbered 1 to 49.
On their turn a player rolls a die and walks to a new room. There they scan
the room's QR code and answer a trivia question. A right answer earns 100
points. A wrong answer costs 100 points, never going below zero, and sends
the player two rooms back, never before room 1. The first player to reach
room 49 wins.

Games are set up in a lobby. A creator opens a game under a random join code
of up to six upper-case letters and digits. Others join it with that code
until it is full. The creator starts it once at least two players are in, or
deletes it while it is still waiting. Any player other than the creator may leave.

Alongside the database, the real-time server keeps two in-memory maps of
which socket is in which game.

The model is split into these modules:

- `Collections` (`collections.dfy`): the query shapes the server relies on:
  - `WHERE` filters;
  - `findIndex`;
  - "newest matching row";
  - a stable `ORDER BY`.
- `Rules` (`rules.dfy`): the pure rules:
  - the clamped roll;
  - the `ROOM_<digits>` token parser;
  - the trimmed, case-insensitive answer comparison;
  - scoring and setback;
  - the round-robin turn index.
- `Tables` (`tables.dfy`): the store:
  - the `games`, `game_players`, `game_moves`, `game_events` and `questions` rows;
  - the error results and their HTTP statuses;
  - the queries;
  - the consistency the controllers keep (`Consistent`);
  - the class `Database` whose fields the controllers update in place.
- `GameController` (`game_controller.dfy`): the lobby:
  - create, with the retry loop for a fresh join code;
  - join, start, delete and leave.
- `GameplayController` (`gameplay_controller.dfy`):
  - roll, scan, answer and passing the turn;
  - the game-state and statistics views.
- `Realtime` (`presence.dfy`): the class `Presence` holding `gameRooms` and `playerSockets`, with the four socket handlers that update them.

Every controller method requires `Database.Valid()` and ensures it again. So
the following hold after any sequence of calls:

- at most one row per (game, user);
- every row in rooms 1..49 with `correct <= answered`;
- join codes are unique;
- a winner is recorded exactly for completed games;
- a game names a current turn exactly once it has started;
- every move was made in a started game, with a die of 1..6, moving forwards.

Randomness is an input to the model:

- The die is a parameter in 1..6.
- The question a scan shows is number `pick` among the room's questions, wrapping round.
- The join codes the generator would produce are given as a sequence `draws`.

## Model

| member | source | states |
|---|---|---|
| `Rules.ApplyRoll` | server/controllers/gameplayController.js:50 | The new room is `min(old + roll, 49)`. It never passes 49 and never moves backwards. It moves at most `roll` rooms, and lands on 49 exactly when `old + roll >= 49`. |
| `Rules.WinIsLandingOnFinalRoom` | server/controllers/gameplayController.js:70 | After the clamp, the winner test `newPosition >= 49` holds exactly when the player is in room 49, and exactly when `old + roll >= 49`. |
| `Rules.ScoreChange` | server/controllers/gameplayController.js:275-283 | The score change is +100 for a right answer and -100 for a wrong one. |
| `Rules.ScoreAfter` | server/controllers/gameplayController.js:285 | The new score is `max(0, score + change)`. It is zero exactly when `score + change <= 0`. |
| `Rules.PositionAfter` | server/controllers/gameplayController.js:275-283 | A right answer keeps the room. A wrong one gives `max(1, room - 2)`, which is never after the old room. |
| `Rules.LeftmostMatch` | server/controllers/gameplayController.js:150 | Returns the leftmost index where `ROOM_` followed by a digit starts, or none when there is no such index. |
| `Rules.DigitRunLength` | server/controllers/gameplayController.js:150 | The greedy `\d+` run: every character in it is a digit, and the character after it is not. |
| `Rules.ParseRoom` | server/controllers/gameplayController.js:150-158 | Gives no room exactly when the text holds no `ROOM_` followed by a digit. |
| `Rules.ParseRoomReadsLeftmostToken` | server/controllers/gameplayController.js:150-158 | The room is the decimal value of the digit run after the leftmost `ROOM_`. Text before it that holds no token of its own, leading zeros, and text after the run, a second token included, do not change it. |
| `Rules.ParseRoomSkipsPrefixAndZeros` | server/controllers/gameplayController.js:150-158 | `xROOM_07y` names room 7. |
| `Rules.ParseRoomTakesFirstToken` | server/controllers/gameplayController.js:150-158 | `ROOM_3ROOM_4` names room 3. |
| `Rules.ShowNatReadsBack` | server/controllers/gameplayController.js:158 | Reading back the decimal digits of `n` with `parseInt` gives `n`. |
| `Rules.ParseRoomRoundTrip` | server/controllers/gameplayController.js:150-158 | A printed token `ROOM_<n>`, followed by anything that does not start with a digit, parses back to room `n`. |
| `Rules.Trim` | server/controllers/gameplayController.js:247 | The result is a contiguous slice of the submission: everything cut off before and after it is whitespace, and the slice itself neither starts nor ends with whitespace. |
| `Rules.PaddedAnswerMatches` | server/controllers/gameplayController.js:247-249 | Whitespace around the submission does not matter. The submission matches exactly when its core equals the stored answer, ignoring letter case. |
| `Rules.UntrimmedStoredAnswerNeverMatches` | server/controllers/gameplayController.js:248-249 | The stored answer is lower-cased but not trimmed. A stored answer that starts or ends with whitespace can never be matched. |
| `Rules.NextIndex` | server/controllers/gameplayController.js:567 | `(i + 1) % n`: the next seat, wrapping from the last to the first. |
| `Rules.EverySeatGetsATurn` | server/controllers/gameplayController.js:567 | From any seat, repeated turn changes reach every seat within one round. A full round of `n` changes returns to the start. |
| `Tables.HttpStatus` | server/controllers/gameplayController.js:19-31 | Every failure is a 400, 403 or 404. It is a 403 exactly for "not authorized to start", "not authorized to delete" and "not your turn". It is a 404 exactly for "game not joinable", "not in game", "game not active", "player not found", "no question", "question not found" and "game not found"; every other failure is a 400. The lobby's responses are at server/controllers/gameController.js:17, :86, :98, :110, :120, :172, :186, :306, :336 and :346. |
| `Tables.PlayerRow` | server/controllers/gameplayController.js:37-47 | Finds the first row of that user in that game, or none exactly when the user has no seat in it. |
| `Tables.TurnOrder` | server/controllers/gameplayController.js:534-541 | The result is sorted by `player_order` and is a permutation of the game's rows (equal multisets). A user is seated exactly when they appear in it. |
| `Tables.CountAfterInsert` | server/controllers/gameController.js:114-127 | Inserting a row raises its own game's player count by exactly one and leaves other games' counts unchanged. |
| `Tables.TurnOrderHasDistinctUsers` | server/controllers/gameplayController.js:534-541 | With one row per (game, user), no user appears twice in a game's turn order. |
| `GameController.GenerateUniqueCode` | server/controllers/gameController.js:21-31 | The loop returns the first draw that no game uses. Every earlier draw was in use. |
| `GameController.CreateGame` | server/controllers/gameController.js:10-76 | Fails exactly when the name is empty. Otherwise it inserts a waiting game under the next id with an unused code and `max_players` defaulting to 4, makes the creator its only player with order 1, and logs one "player joined" event. |
| `Tables.AddGameKeepsConsistent` | server/controllers/gameController.js:34-46 | Inserting a new waiting game under the next id, with its creator as its one player at order 1, keeps every table invariant: unique (game, user) rows, rows and events that name existing games, distinct join codes, ids below the next id, legal move logs. The new game's player list is exactly the creator's row. |
| `GameController.JoinGame` | server/controllers/gameController.js:79-157 | The checks run in order: a missing code; no waiting game with that code; already seated; `count >= max_players`. A success appends one row with order `count + 1` and one event, and leaves the count no larger than `max_players`. |
| `GameController.StartGame` | server/controllers/gameController.js:160-223 | Only the creator of a waiting game may start it, and only with at least two players. The turn goes to a player with the lowest `player_order`, the game becomes active, and a "game started" event records the player count. |
| `GameController.DeleteGame` | server/controllers/gameController.js:294-321 | Only the creator of a waiting game may delete it. Its events, players and game row go, and moves stay. A waiting game never has moves, so none is left behind. |
| `GameController.LeaveGame` | server/controllers/gameController.js:324-375 | Rejects a non-member, then the creator, without checking the status. Otherwise it removes only that user's row in that game and logs a "player left" event. |
| `GameController.LeaveThenJoinRepeatsOrder` | server/controllers/gameController.js:124-128 | Orders are not renumbered after a leave. With seats 1, 2 and 3, once seat 2 leaves the next joiner is also given order 3. |
| `GameplayController.RollDice` | server/controllers/gameplayController.js:6-140 | The checks are: the game is active (404), it is the caller's turn (403), and the caller has a row (404). The roll then sets only that row's room to the clamped value and appends one move record. A winning roll completes the game with the roller as winner. Any other roll leaves the game and its turn as they were. |
| `GameplayController.ScanQR` | server/controllers/gameplayController.js:143-220 | The checks run in order: no token; room outside 1..49; no seat; standing in another room; no question for the room. Each error is returned exactly when its check is the first to fail, and success is exactly when all of them pass. It returns one of that room's questions, without its answer. Neither the status nor the turn is checked. |
| `GameplayController.AnsweredRow` | server/controllers/gameplayController.js:271-301 | A right answer gives +100 in place. A wrong one gives a score floored at 0 and the room `PositionAfter` gives, a setback of 2 floored at room 1. `answered` goes up by one, `correct` goes up by one exactly for a right answer, and the row stays within the board. |
| `GameplayController.NewestMoveTo` | server/controllers/gameplayController.js:307-313 | Finds the newest move by that player in that game that ended in the given room, or none when no move did. |
| `GameplayController.RecordAnswer` | server/controllers/gameplayController.js:307-313 | At most one move changes: the newest move by that player in that game ending in the room they were in. Only its answer columns change. When such a move exists, the newest one is the one updated. |
| `GameplayController.RecordAnswerKeepsConsistent` | server/controllers/gameplayController.js:307-313 | Filling in a move's answer columns keeps every move legal. |
| `GameplayController.NextTurnPlayer` | server/controllers/gameplayController.js:534-576 | The next player is always seated in the game. There is none exactly when the game is gone or names no current player, or when its current player has no seat in it. |
| `GameplayController.NextTurnIsAnotherPlayer` | server/controllers/gameplayController.js:557-570 | With two or more players, the turn passes to a different player. |
| `GameplayController.NextTurnAdvancesSeat` | server/controllers/gameplayController.js:557-570 | The next player's seat in turn order is `(seat + 1) % n`. |
| `GameplayController.TurnOrderIsStrict` | server/controllers/gameplayController.js:534-541 | When orders are distinct, turn order is strictly increasing. |
| `GameplayController.NextSeatFollows` | server/controllers/gameplayController.js:557-570 | In a strictly increasing turn order, the seat after `i` holds the smallest order above seat `i`'s, or the smallest of all from the last seat. |
| `GameplayController.NextTurnFollowsPlayerOrder` | server/controllers/gameplayController.js:534-576 | With distinct `player_order`s, the turn goes to the next higher order, and from the highest back to the lowest. |
| `GameplayController.TurnStallsWhenItsHolderLeaves` | server/controllers/gameplayController.js:560-565 | Once the player holding the turn has left, no next player can be found, so an answer does not pass the turn. |
| `GameController.GameWithTurnTakesNoJoins` | server/controllers/gameController.js:91-100 | In consistent tables, a game that names a turn is not waiting, so no join code reaches it. A player who left the turn-holding seat cannot join that game again. |
| `GameplayController.MoveToNextPlayer` | server/controllers/gameplayController.js:529-617 | Sets the game's current turn to `NextTurnPlayer`. When there is none it changes nothing, and it never touches any other table. |
| `GameplayController.SubmitAnswer` | server/controllers/gameplayController.js:223-385 | Fails on an unknown question, then on a missing seat. Otherwise it grades the answer, updates only that row, records the answer on the newest matching move and passes the turn. It checks neither status nor turn, and `roomPosition` plays no part. |
| `GameplayController.GameState` | server/controllers/gameplayController.js:388-452 | Fails only for a missing game. Otherwise it returns the game, its players sorted by `player_order` as a permutation of the game's rows, and its ten newest moves, newest first. |
| `Tables.CountMoves` | server/controllers/gameplayController.js:484-486 | A `COUNT(*)` over the moves table is the number of positions whose row passes the condition. |
| `GameplayController.StatsOf` | server/controllers/gameplayController.js:482-492 | The three counts are the player's moves in the game, those with the question answered, and those answered correctly, each counted over the positions of the moves table. The answered and correct counts are never more than the moves. |
| `GameplayController.StatsLines` | server/controllers/gameplayController.js:482-492 | Line `i` is the statistics of row `i`: one line for each of the game's rows, in row order. |
| `GameplayController.LineOf` | server/controllers/gameplayController.js:516 | Finds the asking user's line exactly when the user has one. |
| `GameplayController.GameStats` | server/controllers/gameplayController.js:455-526 | Fails only for a missing game. Its lines are a reordering (equal multisets) of the game's rows' statistics lines, one per row, sorted by score descending and then room descending. The totals are the number of the game's moves and of its moves with the question answered, counted over the positions of the moves table. The asking player's line is present exactly when they are seated. |
| `Realtime.AddSocket` | server/server.js:73-76 | After adding, the socket is in the game's set and no other game's set changes. No set becomes empty. |
| `Realtime.RemoveSocket` | server/server.js:107-112 | Removes the socket from that game's set, and the key goes exactly when the set empties. Other games are unchanged, and no empty set is ever stored. |
| `Realtime.JoinThenLeaveRestoresRooms` | server/server.js:73-76 | Joining a room and then leaving it restores `gameRooms` exactly. |
| `Realtime.RejoinLeavesStaleMembership` | server/server.js:58-76 | A socket that joins a second game and then disconnects is still listed in the first game's set. |
| `Realtime.Presence.JoinGame` | server/server.js:56-98 | Overwrites `playerSockets[socket]` and adds the socket to the game's set. It reports the set's new size, at least 1, and keeps the socket in any earlier game's set. |
| `Realtime.Presence.LeaveGame` | server/server.js:101-127 | Removes the socket from the named game's set, dropping an emptied key, and forgets the socket. |
| `Realtime.Presence.GameDeleted` | server/server.js:130-146 | Drops the game's whole entry from `gameRooms` and leaves `playerSockets` untouched. |
| `Realtime.Presence.Disconnect` | server/server.js:245-275 | Removes the socket from the set of the game it last joined, when there is one, and always forgets the socket. |

## Left out

- Randomness:
  - the die (`gameplayController.js:34`);
  - `ORDER BY RAND()` (`:190`);
  - `generateGameCode` (`gameController.js:5-7`) and the format of its codes.

  All three are parameters. `GameController.GenerateUniqueCode` requires that some draw is unused. With no such draw, the source would keep drawing forever.
- SQL, the connection pool (`server/config/database.js`) and the JSON responses. Each table is a sequence in insertion order, and a failed query is not modelled.
- `ORDER BY player_order` and `ORDER BY move_timestamp DESC` ties:
  - Equal orders keep table order (a stable sort). MySQL promises no order among ties.
  - Moves with equal timestamps are taken in insertion order.
  - In `GameplayController.GameStats`, lines with equal score and room keep table order. The source sorts them with `ORDER BY gp.score DESC, gp.current_position DESC` (`gameplayController.js:490`).
- Socket.io emits, broadcasts and their swallowed errors, and the socket.io rooms the handlers join and leave. Only the two maps are modelled.
- Keys in `gameRooms` are whatever the client sent. A game id sent once as a number and once as a string gives two keys in the source, but one key here.
- Authentication (`server/middleware/auth.js`, `server/controllers/authController.js`) and user names. The caller's user id is a parameter.
- The express-validator rules in `server/routes/games.js` and `server/routes/gameplay.js`:
  - The controllers never read the validation result, so the rules reject nothing.
  - The gameplay routes the client uses are the unvalidated ones in `server/routes/games.js:133-136`.
  - They are therefore not preconditions here. For example, `max_players` is any integer.
- A missing `game_name` or `game_code` (undefined or null) is treated as the empty string. `max_players` left out of the request is `None`.
- `GameplayController.ScanQR`, `GameplayController.SubmitAnswer`: a missing `qrData` or `answer`, or a question whose `correct_answer` is NULL, makes the source throw and answer 500 (`gameplayController.js:150`, `:247`, `:248`). Here these are always strings, so that failure is not modelled.
- Join codes are compared by exact equality in `Tables.CodeInUse` and `GameController.WaitingWithCode`. The source compares them with `game_code = ?` in SQL, which follows the column's collation and is case-insensitive under MySQL's default collations. The schema is not part of this model.
- `GameplayController.GameStats` models `getGameStats`, but neither `server/routes/games.js` nor `server/routes/gameplay.js` wires it to a route, although the browser asks for `/api/games/:id/statistics` (`public/js/gameplay.js:815`).
- `getUserGames`, `getGameStatus`, the server-rendered page routes, timestamps and `duration_minutes`, and all browser code.
- Concurrency: two requests racing between a check and the write that follows it.
- `Rules.Trim`, `Rules.Lower`: ASCII whitespace and ASCII letters only. JavaScript's `trim` and `toLowerCase` also handle the rest of Unicode.
- `Rules.ParseRoom`: decimal values are unbounded. `parseInt` loses precision above 2^53, but any such value fails the 1..49 range check either way.
- `GameplayController.RollDice`: the move record's timestamp and `completed_at` are not modelled.
