/**
 * The relational store the game server works against: the `games`,
 * `game_players`, `game_moves`, `game_events` and `questions` tables, the
 * queries the controllers run over them, the error results the controllers
 * answer with, and the consistency the controllers keep between the tables.
 */
module Tables {
  import opened Collections
  import opened Rules

  type GameId = nat
  type UserId = nat
  type QuestionId = nat

  datatype Status = Waiting | Active | Completed

  /** A row of `games`. `maxPlayers` is whatever the creator sent: nothing range-checks it. */
  datatype Game = Game(
    code: string,
    name: string,
    createdBy: UserId,
    maxPlayers: int,
    status: Status,
    currentTurn: Option<UserId>,
    winner: Option<UserId>)

  /** A row of `game_players`: one user's seat in one game. */
  datatype GamePlayer = GamePlayer(
    game: GameId,
    user: UserId,
    order: nat,
    position: int,
    score: nat,
    answered: nat,
    correct: nat)

  /** The row a join inserts: the table defaults put the player in the first room with no score. */
  function NewPlayer(g: GameId, u: UserId, order: nat): GamePlayer
  {
    GamePlayer(g, u, order, FirstRoom, 0, 0, 0)
  }

  /** A row of `game_moves`: written by a roll, its answer columns filled in by the following answer. */
  datatype Move = Move(
    game: GameId,
    player: UserId,
    dice: int,
    from: int,
    to: int,
    answered: bool,
    answerCorrect: bool,
    scoreChange: int)

  /** A row of `game_events`, one variant per event type the lobby logs. */
  datatype Event =
    | PlayerJoined(game: GameId, user: UserId, order: nat)
    | GameStarted(game: GameId, startedBy: UserId, firstTurn: UserId, totalPlayers: nat)
    | PlayerLeft(game: GameId, user: UserId)

  /** A row of `questions`; gameplay only reads them. */
  datatype Question = Question(
    id: QuestionId,
    text: string,
    answer: string,
    explanation: string,
    difficulty: string,
    topic: string,
    room: int)

  /** Every failure a controller answers with, by the message it sends. */
  datatype Error =
    | MissingName             // "Game name is required"
    | MissingCode             // "Game code is required"
    | GameNotJoinable         // "Game not found or already started"
    | AlreadyJoined           // "You are already in this game"
    | GameFull                // "Game is full"
    | NotAuthorizedToStart    // "Not authorized to start this game or game already started"
    | TooFewPlayers           // "Need at least 2 players to start game"
    | NotAuthorizedToDelete   // "Not authorized to delete this game or game already started"
    | NotInGame               // "You are not in this game"
    | CreatorCannotLeave      // "Game creators cannot leave. Delete the game instead."
    | GameNotActive           // "Game not found or not active"
    | NotYourTurn             // "Not your turn"
    | PlayerNotFound          // "Player not found in game"
    | BadQrFormat             // "Invalid QR code format"
    | RoomOutOfRange          // "Invalid room number. Must be between 1 and 49"
    | WrongRoom               // "You must be in room ... to scan this QR code"
    | NoQuestion              // "No question found for this room"
    | QuestionNotFound        // "Question not found"
    | GameNotFound            // "Game not found"

  /** The HTTP status each failure is sent with. */
  function HttpStatus(e: Error): (code: int)
    ensures code == 400 || code == 403 || code == 404
    ensures code == 403 <==> e in {NotAuthorizedToStart, NotAuthorizedToDelete, NotYourTurn}
    ensures code == 404 <==>
      e in {GameNotJoinable, NotInGame, GameNotActive, PlayerNotFound, NoQuestion, QuestionNotFound, GameNotFound}
  {
    match e
    case NotAuthorizedToStart | NotAuthorizedToDelete | NotYourTurn => 403
    case GameNotJoinable | NotInGame | GameNotActive | PlayerNotFound | NoQuestion
      | QuestionNotFound | GameNotFound => 404
    case _ => 400
  }

  datatype Result<T> = Ok(value: T) | Err(error: Error)

  // ---------------------------------------------------------------------------
  // Queries
  // ---------------------------------------------------------------------------

  /** `SELECT ... FROM game_players WHERE game_id = g`. */
  function PlayersOf(ps: seq<GamePlayer>, g: GameId): (r: seq<GamePlayer>)
    ensures forall p :: p in r <==> p in ps && p.game == g
  {
    Filter(ps, (p: GamePlayer) => p.game == g)
  }

  /** `SELECT COUNT(*) FROM game_players WHERE game_id = g`. */
  function PlayerCount(ps: seq<GamePlayer>, g: GameId): nat
  {
    |PlayersOf(ps, g)|
  }

  /** A row added to the table raises its game's count by one and leaves other counts alone. */
  lemma CountAfterInsert(ps: seq<GamePlayer>, x: GamePlayer, g: GameId)
    ensures PlayerCount(ps + [x], g) == PlayerCount(ps, g) + (if x.game == g then 1 else 0)
  {
    FilterAppend(ps, x, (p: GamePlayer) => p.game == g);
  }

  /** The first row inserted for a game is all that game has. */
  lemma FirstRowOfGame(ps: seq<GamePlayer>, x: GamePlayer)
    requires forall i :: 0 <= i < |ps| ==> ps[i].game != x.game
    ensures PlayersOf(ps + [x], x.game) == [x]
  {
    FilterNone(ps, (p: GamePlayer) => p.game == x.game);
    FilterAppend(ps, x, (p: GamePlayer) => p.game == x.game);
  }

  /** `DELETE FROM game_players WHERE game_id = g`. */
  function PlayersNotOf(ps: seq<GamePlayer>, g: GameId): (r: seq<GamePlayer>)
    ensures forall p :: p in r <==> p in ps && p.game != g
  {
    Filter(ps, (p: GamePlayer) => p.game != g)
  }

  /** `DELETE FROM game_players WHERE game_id = g AND user_id = u`. */
  function WithoutPlayer(ps: seq<GamePlayer>, g: GameId, u: UserId): (r: seq<GamePlayer>)
    ensures forall p :: p in r <==> p in ps && !(p.game == g && p.user == u)
  {
    Filter(ps, (p: GamePlayer) => !(p.game == g && p.user == u))
  }

  predicate IsMember(ps: seq<GamePlayer>, g: GameId, u: UserId)
  {
    exists i :: 0 <= i < |ps| && ps[i].game == g && ps[i].user == u
  }

  /** `SELECT ... FROM game_players WHERE game_id = g AND user_id = u`, first row. */
  function PlayerRow(ps: seq<GamePlayer>, g: GameId, u: UserId): (r: Option<nat>)
    ensures r.Some? ==> r.value < |ps| && ps[r.value].game == g && ps[r.value].user == u
    ensures r.Some? ==> forall j :: 0 <= j < r.value ==> !(ps[j].game == g && ps[j].user == u)
    ensures r.None? <==> !IsMember(ps, g, u)
  {
    FirstWhere(ps, (p: GamePlayer) => p.game == g && p.user == u)
  }

  predicate ByTurnOrder(a: GamePlayer, b: GamePlayer)
  {
    a.order <= b.order
  }

  /** `SELECT ... WHERE game_id = g ORDER BY player_order`, ties in table order. */
  function TurnOrder(ps: seq<GamePlayer>, g: GameId): (r: seq<GamePlayer>)
    ensures Sorted(r, ByTurnOrder)
    ensures forall p :: p in r <==> p in ps && p.game == g
    ensures multiset(r) == multiset(PlayersOf(ps, g))
    ensures |r| == PlayerCount(ps, g)
    ensures forall u :: IsMember(ps, g, u) <==> exists j :: 0 <= j < |r| && r[j].user == u
  {
    SortedHasSameElements(PlayersOf(ps, g), ByTurnOrder);
    var r := SortBy(PlayersOf(ps, g), ByTurnOrder);
    forall u ensures IsMember(ps, g, u) <==> exists j :: 0 <= j < |r| && r[j].user == u {
      if IsMember(ps, g, u) {
        var i :| 0 <= i < |ps| && ps[i].game == g && ps[i].user == u;
        assert ps[i] in r;
      }
      if exists j :: 0 <= j < |r| && r[j].user == u {
        var j :| 0 <= j < |r| && r[j].user == u;
        assert r[j] in r;
      }
    }
    r
  }

  /** `SELECT ... FROM game_moves WHERE game_id = g`, in insertion order. */
  function MovesOf(ms: seq<Move>, g: GameId): (r: seq<Move>)
    ensures forall m :: m in r <==> m in ms && m.game == g
  {
    Filter(ms, (m: Move) => m.game == g)
  }

  /** `SELECT COUNT(*) FROM game_moves WHERE ...`: how many rows of the table pass the condition. */
  function CountMoves(ms: seq<Move>, keep: Move -> bool): (n: nat)
    ensures n == |IndicesWhere(ms, keep)|
  {
    FilterCountsMatches(ms, keep);
    |Filter(ms, keep)|
  }

  /** `DELETE FROM game_events WHERE game_id = g`. */
  function EventsNotOf(es: seq<Event>, g: GameId): (r: seq<Event>)
    ensures forall e :: e in r <==> e in es && e.game != g
  {
    Filter(es, (e: Event) => e.game != g)
  }

  /** `SELECT game_id FROM games WHERE game_code = code` is not empty. */
  predicate CodeInUse(games: map<GameId, Game>, code: string)
  {
    exists id :: id in games && games[id].code == code
  }

  /** `SELECT * FROM questions WHERE question_id = id`, first row. */
  function QuestionById(qs: seq<Question>, id: QuestionId): (r: Option<nat>)
    ensures r.Some? ==> r.value < |qs| && qs[r.value].id == id
    ensures r.None? <==> forall i :: 0 <= i < |qs| ==> qs[i].id != id
  {
    FirstWhere(qs, (q: Question) => q.id == id)
  }

  /** `SELECT * FROM questions WHERE room_position = room`. */
  function QuestionsAt(qs: seq<Question>, room: int): (r: seq<Question>)
    ensures forall q :: q in r <==> q in qs && q.room == room
  {
    Filter(qs, (q: Question) => q.room == room)
  }

  // ---------------------------------------------------------------------------
  // What the controllers keep true of the tables
  // ---------------------------------------------------------------------------

  /** At most one `game_players` row per (game, user). */
  ghost predicate UniqueRows(ps: seq<GamePlayer>)
  {
    forall i, j ::
      0 <= i < |ps| && 0 <= j < |ps| && ps[i].game == ps[j].game && ps[i].user == ps[j].user ==> i == j
  }

  /** No two rows of game `g` share a `player_order`. */
  ghost predicate DistinctOrders(players: seq<GamePlayer>, g: GameId)
  {
    forall i, j ::
      (0 <= i < |players| && 0 <= j < |players| && players[i].game == g && players[j].game == g &&
       players[i].order == players[j].order) ==> i == j
  }

  ghost predicate RowOk(games: map<GameId, Game>, p: GamePlayer)
  {
    p.game in games && FirstRoom <= p.position <= FinalRoom && p.correct <= p.answered
  }

  /** A winner is recorded exactly for completed games; a game names a turn exactly once it has started. */
  ghost predicate GameOk(game: Game)
  {
    && (game.winner.Some? <==> game.status == Completed)
    && (game.status != Waiting <==> game.currentTurn.Some?)
  }

  /** Moves are only ever made in started games, by a legal die, forwards along the board. */
  ghost predicate MoveOk(games: map<GameId, Game>, m: Move)
  {
    && m.game in games
    && games[m.game].status != Waiting
    && 1 <= m.dice <= DiceFaces
    && FirstRoom <= m.from <= m.to <= FinalRoom
    && (m.answerCorrect ==> m.answered)
  }

  ghost predicate Consistent(
    games: map<GameId, Game>, players: seq<GamePlayer>, moves: seq<Move>, events: seq<Event>, nextId: GameId)
  {
    && UniqueRows(players)
    && (forall p :: p in players ==> RowOk(games, p))
    && (forall a, b :: a in games && b in games && games[a].code == games[b].code ==> a == b)
    && (forall id :: id in games ==> id < nextId && GameOk(games[id]))
    && (forall m :: m in moves ==> MoveOk(games, m))
    && (forall e :: e in events ==> e.game in games)
  }

  /** Dropping the first row keeps the rows unique. */
  lemma TailKeepsUniqueRows(ps: seq<GamePlayer>)
    requires UniqueRows(ps) && ps != []
    ensures UniqueRows(ps[1..])
    ensures forall k :: 0 <= k < |ps[1..]| ==> !(ps[1..][k].game == ps[0].game && ps[1..][k].user == ps[0].user)
  {
    var tail := ps[1..];
    forall k | 0 <= k < |tail| ensures !(tail[k].game == ps[0].game && tail[k].user == ps[0].user) {
      assert tail[k] == ps[k + 1];
    }
    forall i, j | 0 <= i < |tail| && 0 <= j < |tail| && tail[i].game == tail[j].game && tail[i].user == tail[j].user
      ensures i == j
    {
      assert tail[i] == ps[i + 1] && tail[j] == ps[j + 1];
    }
  }

  /** Putting a row with a fresh (game, user) pair in front keeps the rows unique. */
  lemma ConsKeepsUniqueRows(x: GamePlayer, ps: seq<GamePlayer>)
    requires UniqueRows(ps)
    requires forall k :: 0 <= k < |ps| ==> !(ps[k].game == x.game && ps[k].user == x.user)
    ensures UniqueRows([x] + ps)
  {
    var xs := [x] + ps;
    assert forall i :: 0 < i < |xs| ==> xs[i] == ps[i - 1];
  }

  /** A reordering of `ps` plus `x` has no row clashing with `y` when neither `ps` nor `x` has. */
  lemma MixHasNoClash(y: GamePlayer, x: GamePlayer, ps: seq<GamePlayer>, mixed: seq<GamePlayer>)
    requires multiset(mixed) == multiset(ps) + multiset{x}
    requires !(x.game == y.game && x.user == y.user)
    requires forall k :: 0 <= k < |ps| ==> !(ps[k].game == y.game && ps[k].user == y.user)
    ensures forall k :: 0 <= k < |mixed| ==> !(mixed[k].game == y.game && mixed[k].user == y.user)
  {
    forall k | 0 <= k < |mixed| ensures !(mixed[k].game == y.game && mixed[k].user == y.user) {
      assert mixed[k] in multiset(mixed);
      if mixed[k] != x {
        assert mixed[k] in multiset(ps);
        var m :| 0 <= m < |ps| && ps[m] == mixed[k];
      }
    }
  }

  /** Deleting rows never creates a duplicate (game, user) pair. */
  lemma {:induction false} FilterKeepsUniqueRows(ps: seq<GamePlayer>, keep: GamePlayer -> bool)
    requires UniqueRows(ps)
    ensures UniqueRows(Filter(ps, keep))
  {
    if ps != [] {
      var tail := ps[1..];
      TailKeepsUniqueRows(ps);
      FilterKeepsUniqueRows(tail, keep);
      var rest := Filter(tail, keep);
      forall k | 0 <= k < |rest| ensures !(rest[k].game == ps[0].game && rest[k].user == ps[0].user) {
        assert rest[k] in rest;
        var m :| 0 <= m < |tail| && tail[m] == rest[k];
        assert ps[m + 1] == rest[k];
      }
      if keep(ps[0]) {
        ConsKeepsUniqueRows(ps[0], rest);
      }
    }
  }

  lemma {:induction false} InsertKeepsUniqueRows(x: GamePlayer, s: seq<GamePlayer>, le: (GamePlayer, GamePlayer) -> bool)
    requires TotalPreorder(le) && Sorted(s, le) && UniqueRows(s)
    requires forall k :: 0 <= k < |s| ==> !(s[k].game == x.game && s[k].user == x.user)
    ensures UniqueRows(Insert(x, s, le))
  {
    if s == [] || le(x, s[0]) {
      ConsKeepsUniqueRows(x, s);
    } else {
      var tail := s[1..];
      TailKeepsUniqueRows(s);
      InsertKeepsUniqueRows(x, tail, le);
      var rest := Insert(x, tail, le);
      assert Insert(x, s, le) == [s[0]] + rest;
      MixHasNoClash(s[0], x, tail, rest);
      ConsKeepsUniqueRows(s[0], rest);
    }
  }

  /** Sorting the rows of a game never creates a duplicate (game, user) pair. */
  lemma {:induction false} SortKeepsUniqueRows(s: seq<GamePlayer>, le: (GamePlayer, GamePlayer) -> bool)
    requires TotalPreorder(le) && UniqueRows(s)
    ensures UniqueRows(SortBy(s, le))
  {
    if s != [] {
      var tail := s[1..];
      TailKeepsUniqueRows(s);
      SortKeepsUniqueRows(tail, le);
      var sorted := SortBy(tail, le);
      forall k | 0 <= k < |sorted| ensures !(sorted[k].game == s[0].game && sorted[k].user == s[0].user) {
        assert sorted[k] in multiset(sorted);
        var m :| 0 <= m < |tail| && tail[m] == sorted[k];
      }
      InsertKeepsUniqueRows(s[0], sorted, le);
    }
  }

  /** `UPDATE game_players SET ... WHERE game_id = g AND user_id = u` on the one row it matches. */
  lemma UpdateKeepsUniqueRows(ps: seq<GamePlayer>, k: nat, p: GamePlayer)
    requires UniqueRows(ps) && k < |ps| && p.game == ps[k].game && p.user == ps[k].user
    ensures UniqueRows(ps[k := p])
  {
    var qs := ps[k := p];
    forall i, j | 0 <= i < |qs| && 0 <= j < |qs| && qs[i].game == qs[j].game && qs[i].user == qs[j].user
      ensures i == j
    {
      assert qs[i].game == ps[i].game && qs[i].user == ps[i].user;
      assert qs[j].game == ps[j].game && qs[j].user == ps[j].user;
    }
  }

  /** Rewriting one player row in place, keeping its key and its ranges, keeps the tables consistent. */
  lemma SetRowKeepsConsistent(
    games: map<GameId, Game>, players: seq<GamePlayer>, moves: seq<Move>, events: seq<Event>, nextId: GameId,
    k: nat, p: GamePlayer)
    requires Consistent(games, players, moves, events, nextId)
    requires k < |players| && p.game == players[k].game && p.user == players[k].user
    requires FirstRoom <= p.position <= FinalRoom && p.correct <= p.answered
    ensures Consistent(games, players[k := p], moves, events, nextId)
  {
    UpdateKeepsUniqueRows(players, k, p);
    assert players[k] in players;
    forall x | x in players[k := p] ensures RowOk(games, x) {
      var i :| 0 <= i < |players[k := p]| && players[k := p][i] == x;
      assert players[i] in players;
    }
  }

  /**
   * Rewriting one game in place keeps the tables consistent when its code
   * stays, its own invariant holds, and a started game does not go back to
   * waiting.
   */
  lemma SetGameKeepsConsistent(
    games: map<GameId, Game>, players: seq<GamePlayer>, moves: seq<Move>, events: seq<Event>, nextId: GameId,
    g: GameId, game: Game)
    requires Consistent(games, players, moves, events, nextId)
    requires g in games && game.code == games[g].code && GameOk(game)
    requires games[g].status != Waiting ==> game.status != Waiting
    ensures Consistent(games[g := game], players, moves, events, nextId)
  {
    var games' := games[g := game];
    assert forall a :: a in games && a != g ==> games'[a] == games[a];
    forall m | m in moves ensures MoveOk(games', m) {
      assert MoveOk(games, m);
    }
  }

  /** Opening a new waiting game under the next id, with its creator seated first, keeps the tables consistent. */
  lemma AddGameKeepsConsistent(
    games: map<GameId, Game>, players: seq<GamePlayer>, moves: seq<Move>, events: seq<Event>, nextId: GameId,
    game: Game)
    requires Consistent(games, players, moves, events, nextId)
    requires !CodeInUse(games, game.code) && game.status == Waiting && game.winner.None? && game.currentTurn.None?
    ensures nextId !in games
    ensures Consistent(games[nextId := game], players + [NewPlayer(nextId, game.createdBy, 1)], moves,
      events + [PlayerJoined(nextId, game.createdBy, 1)], nextId + 1)
    ensures PlayersOf(players + [NewPlayer(nextId, game.createdBy, 1)], nextId) == [NewPlayer(nextId, game.createdBy, 1)]
  {
    forall i | 0 <= i < |players| ensures players[i].game != nextId {
      assert players[i] in players;
    }
    FirstRowOfGame(players, NewPlayer(nextId, game.createdBy, 1));
    var games' := games[nextId := game];
    assert forall a :: a in games ==> games'[a] == games[a];
    forall m | m in moves ensures MoveOk(games', m) {
      assert MoveOk(games, m);
    }
  }

  /** Seating a user who has no row in an existing game, and logging it, keeps the tables consistent. */
  lemma AddPlayerKeepsConsistent(
    games: map<GameId, Game>, players: seq<GamePlayer>, moves: seq<Move>, events: seq<Event>, nextId: GameId,
    g: GameId, u: UserId, order: nat)
    requires Consistent(games, players, moves, events, nextId)
    requires g in games && !IsMember(players, g, u)
    ensures Consistent(games, players + [NewPlayer(g, u, order)], moves, events + [PlayerJoined(g, u, order)], nextId)
  {
    var ps := players + [NewPlayer(g, u, order)];
    assert forall i :: 0 <= i < |players| ==> ps[i] == players[i];
  }

  /** Logging a legal move keeps the tables consistent. */
  lemma AddMoveKeepsConsistent(
    games: map<GameId, Game>, players: seq<GamePlayer>, moves: seq<Move>, events: seq<Event>, nextId: GameId,
    m: Move)
    requires Consistent(games, players, moves, events, nextId)
    requires MoveOk(games, m)
    ensures Consistent(games, players, moves + [m], events, nextId)
  {
  }

  /** In turn order, each user of a game appears once. */
  lemma TurnOrderHasDistinctUsers(ps: seq<GamePlayer>, g: GameId)
    requires UniqueRows(ps)
    ensures var ts := TurnOrder(ps, g);
      forall i, j :: 0 <= i < |ts| && 0 <= j < |ts| && ts[i].user == ts[j].user ==> i == j
  {
    FilterKeepsUniqueRows(ps, (p: GamePlayer) => p.game == g);
    SortKeepsUniqueRows(PlayersOf(ps, g), ByTurnOrder);
  }

  // ---------------------------------------------------------------------------
  // The store
  // ---------------------------------------------------------------------------

  /** The tables, updated in place by the controllers. */
  class Database {
    var games: map<GameId, Game>
    var players: seq<GamePlayer>
    var moves: seq<Move>
    var events: seq<Event>
    /** The next `AUTO_INCREMENT` value of `games.game_id`. */
    var nextGameId: GameId
    const questions: seq<Question>

    ghost predicate Valid()
      reads this
    {
      Consistent(games, players, moves, events, nextGameId)
    }

    constructor (questions: seq<Question>)
      ensures Valid()
      ensures games == map[] && players == [] && moves == [] && events == []
      ensures nextGameId == 1 && this.questions == questions
    {
      games, players, moves, events := map[], [], [], [];
      nextGameId := 1;
      this.questions := questions;
    }
  }
}
