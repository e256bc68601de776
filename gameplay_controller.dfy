/**
 * Play: rolling the die, scanning a room's QR code for a question, answering
 * it, passing the turn, and the two read-only views of a game (its state and
 * its final statistics).
 *
 * Scanning and answering check neither the game's status nor whose turn it
 * is; only rolling does. The die is a parameter in 1..6 and the random pick
 * among a room's questions is a parameter `pick`.
 */
module GameplayController {
  import opened Collections
  import opened Rules
  import opened Tables

  // ---------------------------------------------------------------------------
  // Rolling
  // ---------------------------------------------------------------------------

  datatype Roll = Roll(dice: int, oldPosition: int, newPosition: int, winner: bool)

  /** The game is being played and it is `user`'s turn. */
  predicate IsTurnOf(games: map<GameId, Game>, g: GameId, user: UserId)
  {
    g in games && games[g].status == Active && games[g].currentTurn == Some(user)
  }

  method RollDice(db: Database, g: GameId, user: UserId, dice: int) returns (r: Result<Roll>)
    requires db.Valid()
    requires 1 <= dice <= DiceFaces
    modifies db
    ensures db.Valid()
    ensures r == Err(GameNotActive) <==> !(g in old(db.games) && old(db.games)[g].status == Active)
    ensures g in old(db.games) && old(db.games)[g].status == Active && !IsTurnOf(old(db.games), g, user)
      ==> r == Err(NotYourTurn)
    ensures IsTurnOf(old(db.games), g, user) && !IsMember(old(db.players), g, user) ==> r == Err(PlayerNotFound)
    ensures r.Err? ==> unchanged(db)
    ensures IsTurnOf(old(db.games), g, user) && IsMember(old(db.players), g, user) ==>
      var k := PlayerRow(old(db.players), g, user).value;
      var from := old(db.players)[k].position;
      var to := ApplyRoll(from, dice);
      && r == Ok(Roll(dice, from, to, IsWin(to)))
      && from <= to <= FinalRoom
      && db.players == old(db.players)[k := old(db.players)[k].(position := to)]
      && db.moves == old(db.moves) + [Move(g, user, dice, from, to, false, false, 0)]
      && (IsWin(to) ==> db.games == old(db.games)[g := old(db.games)[g].(status := Completed, winner := Some(user))])
      && (!IsWin(to) ==> db.games == old(db.games))
      && db.events == old(db.events) && db.nextGameId == old(db.nextGameId)
  {
    if !(g in db.games && db.games[g].status == Active) {
      return Err(GameNotActive);
    }
    if db.games[g].currentTurn != Some(user) {
      return Err(NotYourTurn);
    }
    var row := PlayerRow(db.players, g, user);
    if row.None? {
      return Err(PlayerNotFound);
    }
    var k := row.value;
    var from := db.players[k].position;
    assert db.players[k] in db.players;
    var to := ApplyRoll(from, dice);
    var winner := IsWin(to);

    var players := db.players[k := db.players[k].(position := to)];
    var move := Move(g, user, dice, from, to, false, false, 0);
    SetRowKeepsConsistent(db.games, db.players, db.moves, db.events, db.nextGameId, k, players[k]);
    AddMoveKeepsConsistent(db.games, players, db.moves, db.events, db.nextGameId, move);
    var games := db.games;
    if winner {
      games := db.games[g := db.games[g].(status := Completed, winner := Some(user))];
      SetGameKeepsConsistent(db.games, players, db.moves + [move], db.events, db.nextGameId, g, games[g]);
    }
    db.games, db.players, db.moves := games, players, db.moves + [move];
    r := Ok(Roll(dice, from, to, winner));
  }

  // ---------------------------------------------------------------------------
  // Scanning a room
  // ---------------------------------------------------------------------------

  /** A question as the scan shows it: everything but the answer and its explanation. */
  datatype QuestionView = QuestionView(id: QuestionId, text: string, difficulty: string, topic: string, room: nat)

  function ViewOf(q: Question, room: nat): QuestionView
  {
    QuestionView(q.id, q.text, q.difficulty, q.topic, room)
  }

  /** The player stands in `room` of game `g`. */
  predicate StandsIn(players: seq<GamePlayer>, g: GameId, user: UserId, room: int)
  {
    exists i :: 0 <= i < |players| && players[i].game == g && players[i].user == user
      && (forall j :: 0 <= j < i ==> !(players[j].game == g && players[j].user == user))
      && players[i].position == room
  }

  /**
   * Scanning `qr` in game `g`: the code must name a room 1..49, the player
   * must be standing in it, and one of that room's questions (number `pick`
   * of them, wrapping) is shown.
   */
  function ScanQR(players: seq<GamePlayer>, questions: seq<Question>, g: GameId, user: UserId, qr: string, pick: nat)
    : (r: Result<QuestionView>)
    ensures ParseRoom(qr).None? <==> r == Err(BadQrFormat)
    ensures ParseRoom(qr).Some? && !(FirstRoom <= ParseRoom(qr).value <= FinalRoom) <==> r == Err(RoomOutOfRange)
    ensures r == Err(PlayerNotFound) ==> !IsMember(players, g, user)
    ensures r == Err(WrongRoom) ==> IsMember(players, g, user) && !StandsIn(players, g, user, ParseRoom(qr).value)
    ensures r == Err(NoQuestion) ==> forall q :: q in questions ==> q.room != ParseRoom(qr).value
    ensures ParseRoom(qr).Some? && FirstRoom <= ParseRoom(qr).value <= FinalRoom ==>
      && (!IsMember(players, g, user) ==> r == Err(PlayerNotFound))
      && (IsMember(players, g, user) && !StandsIn(players, g, user, ParseRoom(qr).value) ==> r == Err(WrongRoom))
      && (StandsIn(players, g, user, ParseRoom(qr).value) && (forall q :: q in questions ==> q.room != ParseRoom(qr).value)
          ==> r == Err(NoQuestion))
    ensures r.Err? ==> r.error in {BadQrFormat, RoomOutOfRange, PlayerNotFound, WrongRoom, NoQuestion}
    ensures r.Ok? <==>
      && ParseRoom(qr).Some?
      && FirstRoom <= ParseRoom(qr).value <= FinalRoom
      && StandsIn(players, g, user, ParseRoom(qr).value)
      && (exists q :: q in questions && q.room == ParseRoom(qr).value)
    ensures r.Ok? ==> ParseRoom(qr) == Some(r.value.room)
    ensures r.Ok? ==> exists q :: q in questions && q.room == r.value.room && ViewOf(q, r.value.room) == r.value
  {
    match ParseRoom(qr)
    case None => Err(BadQrFormat)
    case Some(room) =>
      if room < FirstRoom || room > FinalRoom then Err(RoomOutOfRange)
      else match PlayerRow(players, g, user)
        case None => Err(PlayerNotFound)
        case Some(k) =>
          if players[k].position != room then Err(WrongRoom)
          else
            var candidates := QuestionsAt(questions, room);
            if |candidates| == 0 then Err(NoQuestion)
            else
              assert candidates[pick % |candidates|] in candidates;
              Ok(ViewOf(candidates[pick % |candidates|], room))
  }

  // ---------------------------------------------------------------------------
  // Answering
  // ---------------------------------------------------------------------------

  datatype Answer = Answer(
    correct: bool,
    scoreChange: int,
    newScore: nat,
    newPosition: int,
    correctAnswer: string,
    explanation: string)

  /**
   * The player's row after an answer: a right answer earns points in place,
   * a wrong one costs points (never below zero) and sends the player back.
   */
  function AnsweredRow(p: GamePlayer, ok: bool): (r: GamePlayer)
    ensures r.game == p.game && r.user == p.user && r.order == p.order
    ensures r.answered == p.answered + 1
    ensures ok ==> r.position == p.position && r.score == p.score + AnswerPoints && r.correct == p.correct + 1
    ensures !ok ==> r.score == (if p.score <= AnswerPoints then 0 else p.score - AnswerPoints) && r.correct == p.correct
    ensures r.position == PositionAfter(p.position, ok)
    ensures FirstRoom <= p.position <= FinalRoom ==> FirstRoom <= r.position <= p.position
    ensures p.correct <= p.answered ==> r.correct <= r.answered
  {
    var change := ScoreChange(ok);
    p.(position := PositionAfter(p.position, ok), score := ScoreAfter(p.score, change),
       answered := p.answered + 1, correct := p.correct + if ok then 1 else 0)
  }

  predicate MoveTo(m: Move, g: GameId, u: UserId, room: int)
  {
    m.game == g && m.player == u && m.to == room
  }

  /** The newest move of `u` in `g` that ended in `room`. */
  function NewestMoveTo(moves: seq<Move>, g: GameId, u: UserId, room: int): (r: Option<nat>)
    ensures r.Some? ==> r.value < |moves| && MoveTo(moves[r.value], g, u, room)
    ensures r.Some? ==> forall j :: r.value < j < |moves| ==> !MoveTo(moves[j], g, u, room)
    ensures r.None? <==> forall j :: 0 <= j < |moves| ==> !MoveTo(moves[j], g, u, room)
  {
    LastWhere(moves, (m: Move) => MoveTo(m, g, u, room))
  }

  /**
   * Filling in the answer columns of the newest move of `u` in `g` that ended
   * in `room`; when there is none, no row changes.
   */
  function RecordAnswer(moves: seq<Move>, g: GameId, u: UserId, room: int, correct: bool, change: int)
    : (r: seq<Move>)
    ensures |r| == |moves|
    ensures forall i :: 0 <= i < |r| && r[i] != moves[i] ==>
      && MoveTo(moves[i], g, u, room)
      && (forall j :: i < j < |moves| ==> !MoveTo(moves[j], g, u, room))
      && r[i] == moves[i].(answered := true, answerCorrect := correct, scoreChange := change)
    ensures (exists i :: 0 <= i < |moves| && MoveTo(moves[i], g, u, room)) ==>
      exists i :: 0 <= i < |r| && r[i] == moves[i].(answered := true, answerCorrect := correct, scoreChange := change)
        && MoveTo(moves[i], g, u, room)
        && (forall j :: i < j < |moves| ==> !MoveTo(moves[j], g, u, room))
  {
    match NewestMoveTo(moves, g, u, room)
    case None => moves
    case Some(k) =>
      var r := moves[k := moves[k].(answered := true, answerCorrect := correct, scoreChange := change)];
      assert r[k] == moves[k].(answered := true, answerCorrect := correct, scoreChange := change);
      r
  }

  /** Filling in answer columns keeps every move legal. */
  lemma RecordAnswerKeepsConsistent(
    games: map<GameId, Game>, players: seq<GamePlayer>, moves: seq<Move>, events: seq<Event>, nextId: GameId,
    g: GameId, u: UserId, room: int, correct: bool, change: int)
    requires Consistent(games, players, moves, events, nextId)
    ensures Consistent(games, players, RecordAnswer(moves, g, u, room, correct, change), events, nextId)
  {
    var moves' := RecordAnswer(moves, g, u, room, correct, change);
    forall m | m in moves' ensures MoveOk(games, m) {
      var i :| 0 <= i < |moves'| && moves'[i] == m;
      assert moves[i] in moves;
    }
  }

  // ---------------------------------------------------------------------------
  // Passing the turn
  // ---------------------------------------------------------------------------

  predicate SeatedAs(p: GamePlayer, u: UserId)
  {
    p.user == u
  }

  /** `players.findIndex(p => p.user_id === u)` over a game's turn order. */
  function SeatOf(ts: seq<GamePlayer>, u: UserId): (r: Option<nat>)
    ensures r.Some? ==> r.value < |ts| && ts[r.value].user == u
    ensures r.Some? ==> forall j :: 0 <= j < r.value ==> ts[j].user != u
    ensures r.None? <==> forall j :: 0 <= j < |ts| ==> ts[j].user != u
  {
    FirstWhere(ts, (p: GamePlayer) => SeatedAs(p, u))
  }

  /**
   * Who has the turn after the current player: the next seat in turn order,
   * wrapping round. Nobody when the game is gone, has no players, names no
   * current player, or names one no longer seated in it.
   */
  function NextTurnPlayer(games: map<GameId, Game>, players: seq<GamePlayer>, g: GameId): (r: Option<UserId>)
    ensures r.Some? ==> IsMember(players, g, r.value)
    ensures r.None? <==>
      || g !in games
      || games[g].currentTurn.None?
      || !IsMember(players, g, games[g].currentTurn.value)
  {
    var ts := TurnOrder(players, g);
    if g !in games || |ts| == 0 then None
    else match games[g].currentTurn
      case None => None
      case Some(c) =>
        match SeatOf(ts, c)
        case None => None
        case Some(i) =>
          var next := ts[NextIndex(i, |ts|)];
          assert next in ts;
          Some(next.user)
  }

  /** The turn passes to the seat after the current one: with two or more players, to someone else. */
  lemma NextTurnIsAnotherPlayer(games: map<GameId, Game>, players: seq<GamePlayer>, g: GameId)
    requires UniqueRows(players)
    requires g in games && games[g].currentTurn.Some? && IsMember(players, g, games[g].currentTurn.value)
    requires PlayerCount(players, g) >= 2
    ensures NextTurnPlayer(games, players, g).Some?
    ensures NextTurnPlayer(games, players, g).value != games[g].currentTurn.value
  {
    var ts := TurnOrder(players, g);
    var c := games[g].currentTurn.value;
    TurnOrderHasDistinctUsers(players, g);
    var i := SeatOf(ts, c).value;
    var n := NextIndex(i, |ts|);
    assert n != i;
    assert ts[n].user != ts[i].user;
  }

  /** The seat of the next player is the seat after the current player's, wrapping round. */
  lemma NextTurnAdvancesSeat(games: map<GameId, Game>, players: seq<GamePlayer>, g: GameId)
    requires UniqueRows(players)
    requires g in games && games[g].currentTurn.Some? && IsMember(players, g, games[g].currentTurn.value)
    ensures var ts := TurnOrder(players, g);
      && SeatOf(ts, games[g].currentTurn.value).Some?
      && SeatOf(ts, NextTurnPlayer(games, players, g).value)
         == Some(NextIndex(SeatOf(ts, games[g].currentTurn.value).value, |ts|))
  {
    var ts := TurnOrder(players, g);
    TurnOrderHasDistinctUsers(players, g);
    var i := SeatOf(ts, games[g].currentTurn.value).value;
    var n := NextIndex(i, |ts|);
    var s := SeatOf(ts, ts[n].user);
    assert s.Some?;
    assert ts[s.value].user == ts[n].user;
  }

  /**
   * Leaving does not pass the turn on: once the player holding the turn has
   * left, no next player is found, so answering leaves the turn where it is.
   */
  lemma TurnStallsWhenItsHolderLeaves(games: map<GameId, Game>, players: seq<GamePlayer>, g: GameId)
    requires g in games && games[g].currentTurn.Some?
    ensures NextTurnPlayer(games, WithoutPlayer(players, g, games[g].currentTurn.value), g).None?
  {
    var c := games[g].currentTurn.value;
    var rest := WithoutPlayer(players, g, c);
    forall i | 0 <= i < |rest| ensures !(rest[i].game == g && rest[i].user == c) {
      assert rest[i] in rest;
    }
  }

  /**
   * `nxt` comes after `cur` in the rotation of game `g`: it has the smallest
   * order above `cur`'s, or, when `cur` has the largest, the smallest order of all.
   */
  ghost predicate Follows(players: seq<GamePlayer>, g: GameId, cur: GamePlayer, nxt: GamePlayer)
  {
    if exists x :: x in players && x.game == g && x.order > cur.order then
      && nxt.order > cur.order
      && forall x :: x in players && x.game == g && x.order > cur.order ==> nxt.order <= x.order
    else
      forall x :: x in players && x.game == g ==> nxt.order <= x.order
  }

  /** With distinct orders, turn order is strictly increasing. */
  lemma TurnOrderIsStrict(players: seq<GamePlayer>, g: GameId)
    requires UniqueRows(players) && DistinctOrders(players, g)
    ensures var ts := TurnOrder(players, g);
      forall a, b :: 0 <= a < b < |ts| ==> ts[a].order < ts[b].order
  {
    var ts := TurnOrder(players, g);
    TurnOrderHasDistinctUsers(players, g);
    forall a, b | 0 <= a < b < |ts| ensures ts[a].order < ts[b].order {
      assert ByTurnOrder(ts[a], ts[b]);
      assert ts[a] in ts && ts[b] in ts;
      var ia :| 0 <= ia < |players| && players[ia] == ts[a];
      var ib :| 0 <= ib < |players| && players[ib] == ts[b];
      assert ts[a].user != ts[b].user;
    }
  }

  /** In a strictly increasing turn order, the seat after `i` holds the player that follows `ts[i]`. */
  lemma NextSeatFollows(players: seq<GamePlayer>, g: GameId, ts: seq<GamePlayer>, i: nat)
    requires forall p :: p in ts <==> p in players && p.game == g
    requires forall a, b :: 0 <= a < b < |ts| ==> ts[a].order < ts[b].order
    requires i < |ts|
    ensures Follows(players, g, ts[i], ts[NextIndex(i, |ts|)])
  {
    var n := NextIndex(i, |ts|);
    if i + 1 < |ts| {
      assert ts[i].order < ts[n].order;
      forall x | x in players && x.game == g && x.order > ts[i].order ensures ts[n].order <= x.order {
        assert x in ts;
        var j :| 0 <= j < |ts| && ts[j] == x;
        assert i < j;
      }
    } else {
      forall x | x in players && x.game == g ensures ts[n].order <= x.order && x.order <= ts[i].order {
        assert x in ts;
        var j :| 0 <= j < |ts| && ts[j] == x;
      }
    }
  }

  /** With distinct `player_order`s, the turn goes to the next order up, and from the last back to the first. */
  lemma NextTurnFollowsPlayerOrder(games: map<GameId, Game>, players: seq<GamePlayer>, g: GameId)
    requires UniqueRows(players) && DistinctOrders(players, g)
    requires g in games && games[g].currentTurn.Some? && IsMember(players, g, games[g].currentTurn.value)
    ensures exists cur, nxt ::
      && cur in players && cur.game == g && cur.user == games[g].currentTurn.value
      && nxt in players && nxt.game == g && nxt.user == NextTurnPlayer(games, players, g).value
      && Follows(players, g, cur, nxt)
  {
    var ts := TurnOrder(players, g);
    TurnOrderIsStrict(players, g);
    var i := SeatOf(ts, games[g].currentTurn.value).value;
    var n := NextIndex(i, |ts|);
    assert ts[i] in ts && ts[n] in ts;
    NextSeatFollows(players, g, ts, i);
  }

  /** `moveToNextPlayer`: pass the turn and report to whom; when nobody follows, leave the game alone. */
  method MoveToNextPlayer(db: Database, g: GameId) returns (next: Option<UserId>)
    requires db.Valid()
    modifies db
    ensures db.Valid()
    ensures next == NextTurnPlayer(old(db.games), old(db.players), g)
    ensures next.Some? ==> db.games == old(db.games)[g := old(db.games)[g].(currentTurn := next)]
    ensures next.None? ==> db.games == old(db.games)
    ensures db.players == old(db.players) && db.moves == old(db.moves)
    ensures db.events == old(db.events) && db.nextGameId == old(db.nextGameId)
  {
    var ts := TurnOrder(db.players, g);
    if |ts| == 0 || g !in db.games {
      return None;
    }
    var current := db.games[g].currentTurn;
    if current.None? {
      return None;
    }
    var seat := SeatOf(ts, current.value);
    if seat.None? {
      return None;
    }
    var nextSeat := NextIndex(seat.value, |ts|);
    next := Some(ts[nextSeat].user);
    SetGameKeepsConsistent(db.games, db.players, db.moves, db.events, db.nextGameId, g, db.games[g].(currentTurn := next));
    db.games := db.games[g := db.games[g].(currentTurn := next)];
  }

  /**
   * `submitAnswer`: mark the answer, move and score the player, fill in the
   * move's answer columns and pass the turn. `roomPosition` is accepted and
   * ignored.
   */
  method SubmitAnswer(db: Database, g: GameId, user: UserId, questionId: QuestionId, answer: string, roomPosition: int)
    returns (r: Result<Answer>)
    requires db.Valid()
    modifies db
    ensures db.Valid()
    ensures QuestionById(db.questions, questionId).None? ==> r == Err(QuestionNotFound)
    ensures QuestionById(db.questions, questionId).Some? && !IsMember(old(db.players), g, user)
      ==> r == Err(PlayerNotFound)
    ensures r.Err? ==> unchanged(db)
    ensures QuestionById(db.questions, questionId).Some? && IsMember(old(db.players), g, user) ==>
      var q := db.questions[QuestionById(db.questions, questionId).value];
      var k := PlayerRow(old(db.players), g, user).value;
      var row := old(db.players)[k];
      var ok := AnswerMatches(answer, q.answer);
      var after := AnsweredRow(row, ok);
      var next := NextTurnPlayer(old(db.games), db.players, g);
      && r == Ok(Answer(ok, ScoreChange(ok), after.score, after.position, q.answer, q.explanation))
      && db.players == old(db.players)[k := after]
      && db.moves == RecordAnswer(old(db.moves), g, user, row.position, ok, ScoreChange(ok))
      && (next.Some? ==> db.games == old(db.games)[g := old(db.games)[g].(currentTurn := next)])
      && (next.None? ==> db.games == old(db.games))
      && db.events == old(db.events) && db.nextGameId == old(db.nextGameId)
  {
    var qi := QuestionById(db.questions, questionId);
    if qi.None? {
      return Err(QuestionNotFound);
    }
    var q := db.questions[qi.value];
    var ok := AnswerMatches(answer, q.answer);
    var row := PlayerRow(db.players, g, user);
    if row.None? {
      return Err(PlayerNotFound);
    }
    var k := row.value;
    var p := db.players[k];
    assert p in db.players;
    var change := ScoreChange(ok);
    var updated := AnsweredRow(p, ok);
    var players := db.players[k := updated];
    var moves := RecordAnswer(db.moves, g, user, p.position, ok, change);
    SetRowKeepsConsistent(db.games, db.players, db.moves, db.events, db.nextGameId, k, updated);
    RecordAnswerKeepsConsistent(db.games, players, db.moves, db.events, db.nextGameId, g, user, p.position, ok, change);
    db.players, db.moves := players, moves;

    var _ := MoveToNextPlayer(db, g);
    r := Ok(Answer(ok, change, updated.score, updated.position, q.answer, q.explanation));
  }

  // ---------------------------------------------------------------------------
  // Views
  // ---------------------------------------------------------------------------

  const RecentMoves := 10

  datatype GameView = GameView(game: Game, players: seq<GamePlayer>, recentMoves: seq<Move>)

  /** `getGameState`: the game, its players in turn order and its ten newest moves, newest first. */
  function GameState(games: map<GameId, Game>, players: seq<GamePlayer>, moves: seq<Move>, g: GameId)
    : (r: Result<GameView>)
    ensures g !in games <==> r == Err(GameNotFound)
    ensures r.Ok? ==> r.value.game == games[g]
    ensures r.Ok? ==> Sorted(r.value.players, ByTurnOrder)
    ensures r.Ok? ==> forall p :: p in r.value.players <==> p in players && p.game == g
    ensures r.Ok? ==> multiset(r.value.players) == multiset(PlayersOf(players, g))
    ensures r.Ok? ==> |r.value.players| == PlayerCount(players, g)
    ensures r.Ok? ==>
      var ms := MovesOf(moves, g);
      && |r.value.recentMoves| == (if |ms| < RecentMoves then |ms| else RecentMoves)
      && forall i :: 0 <= i < |r.value.recentMoves| ==> r.value.recentMoves[i] == ms[|ms| - 1 - i]
  {
    if g !in games then Err(GameNotFound)
    else Ok(GameView(games[g], TurnOrder(players, g), Newest(MovesOf(moves, g), RecentMoves)))
  }

  /**
   * One line of the statistics: the player's row with three counts taken
   * from the moves table. The query's `correct_answers` column comes after
   * the row's own and replaces it, so `correctAnswers` counts moves marked
   * correct, not the row's counter.
   */
  datatype PlayerStats = PlayerStats(row: GamePlayer, totalMoves: nat, questionsAnswered: nat, correctAnswers: nat)

  datatype Stats = Stats(
    game: Game,
    totalMoves: nat,
    totalQuestions: nat,
    players: seq<PlayerStats>,
    currentPlayer: Option<PlayerStats>)

  predicate MadeBy(m: Move, g: GameId, u: UserId)
  {
    m.game == g && m.player == u
  }

  /** A set of positions and one of its subsets: the subset is never larger. */
  lemma SubsetIsSmaller(a: set<nat>, b: set<nat>)
    requires a <= b
    ensures |a| <= |b|
  {
    assert b == a + (b - a);
  }

  /**
   * One line of the statistics. Each count is a `COUNT(*)` over the moves
   * table: the player's moves in the game, those whose question was
   * answered, and those answered correctly.
   */
  function StatsOf(p: GamePlayer, moves: seq<Move>): (s: PlayerStats)
    ensures s.row == p
    ensures s.totalMoves == |IndicesWhere(moves, (m: Move) => MadeBy(m, p.game, p.user))|
    ensures s.questionsAnswered == |IndicesWhere(moves, (m: Move) => MadeBy(m, p.game, p.user) && m.answered)|
    ensures s.correctAnswers == |IndicesWhere(moves, (m: Move) => MadeBy(m, p.game, p.user) && m.answerCorrect)|
    ensures s.questionsAnswered <= s.totalMoves && s.correctAnswers <= s.totalMoves
  {
    var total := CountMoves(moves, (m: Move) => MadeBy(m, p.game, p.user));
    var answered := CountMoves(moves, (m: Move) => MadeBy(m, p.game, p.user) && m.answered);
    var correct := CountMoves(moves, (m: Move) => MadeBy(m, p.game, p.user) && m.answerCorrect);
    SubsetIsSmaller(IndicesWhere(moves, (m: Move) => MadeBy(m, p.game, p.user) && m.answered),
      IndicesWhere(moves, (m: Move) => MadeBy(m, p.game, p.user)));
    SubsetIsSmaller(IndicesWhere(moves, (m: Move) => MadeBy(m, p.game, p.user) && m.answerCorrect),
      IndicesWhere(moves, (m: Move) => MadeBy(m, p.game, p.user)));
    PlayerStats(p, total, answered, correct)
  }

  /** `ORDER BY score DESC, current_position DESC`. */
  predicate ByStanding(a: PlayerStats, b: PlayerStats)
  {
    a.row.score > b.row.score || (a.row.score == b.row.score && a.row.position >= b.row.position)
  }

  predicate IsStatsOf(s: PlayerStats, u: UserId)
  {
    s.row.user == u
  }

  /** One statistics line per row, in row order. */
  function StatsLines(rows: seq<GamePlayer>, moves: seq<Move>): (r: seq<PlayerStats>)
    ensures |r| == |rows|
    ensures forall i :: 0 <= i < |rows| ==> r[i] == StatsOf(rows[i], moves)
    ensures forall s :: s in r <==> exists p :: p in rows && s == StatsOf(p, moves)
  {
    if rows == [] then []
    else [StatsOf(rows[0], moves)] + StatsLines(rows[1..], moves)
  }

  /** `players.find(p => p.user_id === user)`. */
  function LineOf(lines: seq<PlayerStats>, user: UserId): (r: Option<PlayerStats>)
    ensures r.Some? <==> exists s :: s in lines && s.row.user == user
    ensures r.Some? ==> r.value in lines && r.value.row.user == user
  {
    match FirstWhere(lines, (s: PlayerStats) => IsStatsOf(s, user))
    case None => None
    case Some(i) => Some(lines[i])
  }

  /** `getGameStats`: standings (best score first, then furthest along), totals, and the asking player's line. */
  function GameStats(games: map<GameId, Game>, players: seq<GamePlayer>, moves: seq<Move>, g: GameId, user: UserId)
    : (r: Result<Stats>)
    ensures g !in games <==> r == Err(GameNotFound)
    ensures r.Ok? ==> r.value.game == games[g]
    ensures r.Ok? ==> r.value.totalMoves == |IndicesWhere(moves, (m: Move) => m.game == g)|
    ensures r.Ok? ==> r.value.totalQuestions == |IndicesWhere(moves, (m: Move) => m.game == g && m.answered)|
    ensures r.Ok? ==> r.value.totalQuestions <= r.value.totalMoves == |MovesOf(moves, g)|
    ensures r.Ok? ==> |r.value.players| == PlayerCount(players, g)
    ensures r.Ok? ==> Sorted(r.value.players, ByStanding)
    ensures r.Ok? ==> multiset(r.value.players) == multiset(StatsLines(PlayersOf(players, g), moves))
    ensures r.Ok? ==> forall s :: s in r.value.players ==> s.row in players && s.row.game == g && s == StatsOf(s.row, moves)
    ensures r.Ok? ==> forall p :: p in players && p.game == g ==> StatsOf(p, moves) in r.value.players
    ensures r.Ok? ==> (r.value.currentPlayer.Some? <==> exists s :: s in r.value.players && s.row.user == user)
    ensures r.Ok? && r.value.currentPlayer.Some? ==>
      r.value.currentPlayer.value in r.value.players && r.value.currentPlayer.value.row.user == user
  {
    if g !in games then Err(GameNotFound)
    else
      var lines := StatsLines(PlayersOf(players, g), moves);
      var standings := SortBy(lines, ByStanding);
      SortedHasSameElements(lines, ByStanding);
      var total := CountMoves(moves, (m: Move) => m.game == g);
      var answered := CountMoves(moves, (m: Move) => m.game == g && m.answered);
      SubsetIsSmaller(IndicesWhere(moves, (m: Move) => m.game == g && m.answered),
        IndicesWhere(moves, (m: Move) => m.game == g));
      Ok(Stats(games[g], total, answered, standings, LineOf(standings, user)))
  }
}
