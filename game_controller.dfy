/**
 * The lobby: creating a game with a fresh join code, joining it by code,
 * starting it, deleting it and leaving it. A game is created `Waiting` and
 * becomes `Active` when its creator starts it with at least two players.
 *
 * Random join codes are supplied by the caller as the sequence of codes the
 * generator would produce, in order.
 */
module GameController {
  import opened Collections
  import opened Rules
  import opened Tables

  const DefaultMaxPlayers := 4
  const MinPlayersToStart := 2

  datatype Created = Created(game: GameId, code: string)
  datatype Joined = Joined(game: GameId, order: nat)

  /**
   * The retry loop: draw codes until one is not used by any game. It returns
   * the first unused draw and how many draws it took.
   */
  method GenerateUniqueCode(games: map<GameId, Game>, draws: seq<string>) returns (code: string, attempts: nat)
    requires exists k :: 0 <= k < |draws| && !CodeInUse(games, draws[k])
    ensures 1 <= attempts <= |draws| && code == draws[attempts - 1]
    ensures !CodeInUse(games, code)
    ensures forall j :: 0 <= j < attempts - 1 ==> CodeInUse(games, draws[j])
  {
    ghost var w :| 0 <= w < |draws| && !CodeInUse(games, draws[w]);
    var isUnique := false;
    code, attempts := "", 0;
    while !isUnique
      invariant attempts <= w + 1
      invariant forall j :: 0 <= j < attempts - 1 ==> CodeInUse(games, draws[j])
      invariant !isUnique ==> forall j :: 0 <= j < attempts ==> CodeInUse(games, draws[j])
      invariant isUnique ==> 1 <= attempts && code == draws[attempts - 1] && !CodeInUse(games, code)
      decreases w + 1 - attempts
    {
      code := draws[attempts];
      attempts := attempts + 1;
      isUnique := !CodeInUse(games, code);
    }
  }

  /** The `max_players` a new game gets: what was sent, else four. */
  function MaxPlayersOrDefault(maxPlayers: Option<int>): int
  {
    match maxPlayers
    case Some(n) => n
    case None => DefaultMaxPlayers
  }

  method CreateGame(db: Database, creator: UserId, name: string, maxPlayers: Option<int>, draws: seq<string>)
    returns (r: Result<Created>)
    requires db.Valid()
    requires name != [] ==> exists k :: 0 <= k < |draws| && !CodeInUse(db.games, draws[k])
    modifies db
    ensures db.Valid()
    ensures name == [] <==> r == Err(MissingName)
    ensures name != [] ==> r.Ok?
    ensures r.Err? ==> unchanged(db)
    ensures r.Ok? ==>
      var id := r.value.game;
      && id == old(db.nextGameId) && id !in old(db.games)
      && r.value.code in draws && !CodeInUse(old(db.games), r.value.code)
      && db.games == old(db.games)[id := Game(r.value.code, name, creator, MaxPlayersOrDefault(maxPlayers), Waiting, None, None)]
      && db.players == old(db.players) + [NewPlayer(id, creator, 1)]
      && PlayersOf(db.players, id) == [NewPlayer(id, creator, 1)]
      && db.events == old(db.events) + [PlayerJoined(id, creator, 1)]
      && db.moves == old(db.moves)
      && db.nextGameId == id + 1
  {
    if name == [] {
      return Err(MissingName);
    }
    var code, _ := GenerateUniqueCode(db.games, draws);
    var id := db.nextGameId;
    var game := Game(code, name, creator, MaxPlayersOrDefault(maxPlayers), Waiting, None, None);
    AddGameKeepsConsistent(db.games, db.players, db.moves, db.events, id, game);
    db.games := db.games[id := game];
    db.nextGameId := id + 1;
    db.players := db.players + [NewPlayer(id, creator, 1)];
    db.events := db.events + [PlayerJoined(id, creator, 1)];
    r := Ok(Created(id, code));
  }

  /** A game in the lobby under this join code. */
  predicate WaitingWithCode(games: map<GameId, Game>, code: string, g: GameId)
  {
    g in games && games[g].code == code && games[g].status == Waiting
  }

  /**
   * Joins go only to waiting games, and a game names a turn exactly once it
   * has started: nobody can join a game that holds a turn, whatever the code.
   */
  lemma GameWithTurnTakesNoJoins(
    games: map<GameId, Game>, players: seq<GamePlayer>, moves: seq<Move>, events: seq<Event>, nextId: GameId,
    g: GameId, code: string)
    requires Consistent(games, players, moves, events, nextId)
    requires g in games && games[g].currentTurn.Some?
    ensures !WaitingWithCode(games, code, g)
  {
    assert GameOk(games[g]);
  }

  method JoinGame(db: Database, user: UserId, code: string) returns (r: Result<Joined>)
    requires db.Valid()
    modifies db
    ensures db.Valid()
    ensures code == [] ==> r == Err(MissingCode)
    ensures code != [] && (forall g :: !WaitingWithCode(old(db.games), code, g)) ==> r == Err(GameNotJoinable)
    ensures r.Err? ==> unchanged(db)
    ensures code != [] ==> forall g :: WaitingWithCode(old(db.games), code, g) ==>
      var count := PlayerCount(old(db.players), g);
      if IsMember(old(db.players), g, user) then r == Err(AlreadyJoined)
      else if count >= old(db.games)[g].maxPlayers then r == Err(GameFull)
      else
        && r == Ok(Joined(g, count + 1))
        && db.players == old(db.players) + [NewPlayer(g, user, count + 1)]
        && db.events == old(db.events) + [PlayerJoined(g, user, count + 1)]
        && db.games == old(db.games) && db.moves == old(db.moves) && db.nextGameId == old(db.nextGameId)
        && PlayerCount(db.players, g) == count + 1 <= db.games[g].maxPlayers
  {
    if code == [] {
      return Err(MissingCode);
    }
    if !exists g :: g in db.games && WaitingWithCode(db.games, code, g) {
      return Err(GameNotJoinable);
    }
    var g :| g in db.games && WaitingWithCode(db.games, code, g);
    if IsMember(db.players, g, user) {
      return Err(AlreadyJoined);
    }
    var count := PlayerCount(db.players, g);
    if count >= db.games[g].maxPlayers {
      return Err(GameFull);
    }
    var order := count + 1;
    CountAfterInsert(db.players, NewPlayer(g, user, order), g);
    AddPlayerKeepsConsistent(db.games, db.players, db.moves, db.events, db.nextGameId, g, user, order);
    db.players, db.events := db.players + [NewPlayer(g, user, order)], db.events + [PlayerJoined(g, user, order)];
    r := Ok(Joined(g, order));
  }

  /** The creator asks, and the game is still in the lobby. */
  predicate MayManage(games: map<GameId, Game>, g: GameId, user: UserId)
  {
    g in games && games[g].createdBy == user && games[g].status == Waiting
  }

  method StartGame(db: Database, user: UserId, g: GameId) returns (r: Result<UserId>)
    requires db.Valid()
    modifies db
    ensures db.Valid()
    ensures !MayManage(old(db.games), g, user) ==> r == Err(NotAuthorizedToStart)
    ensures MayManage(old(db.games), g, user) && PlayerCount(old(db.players), g) < MinPlayersToStart ==> r == Err(TooFewPlayers)
    ensures r.Err? ==> unchanged(db)
    ensures MayManage(old(db.games), g, user) && PlayerCount(old(db.players), g) >= MinPlayersToStart ==>
      && r.Ok?
      && IsMember(old(db.players), g, r.value)
      && (exists p :: p in old(db.players) && p.game == g && p.user == r.value &&
            forall q :: q in old(db.players) && q.game == g ==> p.order <= q.order)
      && r.value == TurnOrder(old(db.players), g)[0].user
      && db.games == old(db.games)[g := old(db.games)[g].(status := Active, currentTurn := Some(r.value))]
      && db.events == old(db.events) + [GameStarted(g, user, r.value, PlayerCount(old(db.players), g))]
      && db.players == old(db.players) && db.moves == old(db.moves) && db.nextGameId == old(db.nextGameId)
  {
    if !MayManage(db.games, g, user) {
      return Err(NotAuthorizedToStart);
    }
    var count := PlayerCount(db.players, g);
    if count < MinPlayersToStart {
      return Err(TooFewPlayers);
    }
    var ordered := TurnOrder(db.players, g);
    var first := ordered[0];
    assert first in db.players && first.game == g;
    forall q | q in db.players && q.game == g ensures first.order <= q.order {
      assert q in ordered;
      var m :| 0 <= m < |ordered| && ordered[m] == q;
      assert m == 0 || ByTurnOrder(ordered[0], ordered[m]);
    }
    var i :| 0 <= i < |db.players| && db.players[i] == first;
    ghost var games0 := db.games;
    db.games := db.games[g := db.games[g].(status := Active, currentTurn := Some(first.user))];
    assert forall a :: a in games0 && a != g ==> db.games[a] == games0[a];
    db.events := db.events + [GameStarted(g, user, first.user, count)];
    r := Ok(first.user);
  }

  method DeleteGame(db: Database, user: UserId, g: GameId) returns (r: Result<()>)
    requires db.Valid()
    modifies db
    ensures db.Valid()
    ensures !MayManage(old(db.games), g, user) ==> r == Err(NotAuthorizedToDelete) && unchanged(db)
    ensures MayManage(old(db.games), g, user) ==>
      && r == Ok(())
      && db.events == EventsNotOf(old(db.events), g)
      && db.players == PlayersNotOf(old(db.players), g)
      && db.games == old(db.games) - {g}
      && db.moves == old(db.moves) && db.nextGameId == old(db.nextGameId)
      && forall m :: m in db.moves ==> m.game != g
  {
    if !MayManage(db.games, g, user) {
      return Err(NotAuthorizedToDelete);
    }
    FilterKeepsUniqueRows(db.players, (p: GamePlayer) => p.game != g);
    db.events := EventsNotOf(db.events, g);
    db.players := PlayersNotOf(db.players, g);
    db.games := db.games - {g};
    r := Ok(());
  }

  method LeaveGame(db: Database, user: UserId, g: GameId) returns (r: Result<()>)
    requires db.Valid()
    modifies db
    ensures db.Valid()
    ensures !IsMember(old(db.players), g, user) ==> r == Err(NotInGame)
    ensures IsMember(old(db.players), g, user) && g in old(db.games) && old(db.games)[g].createdBy == user
      ==> r == Err(CreatorCannotLeave)
    ensures r.Err? ==> unchanged(db)
    ensures IsMember(old(db.players), g, user) && !(g in old(db.games) && old(db.games)[g].createdBy == user) ==>
      && r == Ok(())
      && db.players == WithoutPlayer(old(db.players), g, user)
      && !IsMember(db.players, g, user)
      && db.events == old(db.events) + [PlayerLeft(g, user)]
      && db.games == old(db.games) && db.moves == old(db.moves) && db.nextGameId == old(db.nextGameId)
  {
    if !IsMember(db.players, g, user) {
      return Err(NotInGame);
    }
    if g in db.games && db.games[g].createdBy == user {
      return Err(CreatorCannotLeave);
    }
    var k :| 0 <= k < |db.players| && db.players[k].game == g && db.players[k].user == user;
    assert db.players[k] in db.players;
    FilterKeepsUniqueRows(db.players, (p: GamePlayer) => !(p.game == g && p.user == user));
    db.players := WithoutPlayer(db.players, g, user);
    forall i | 0 <= i < |db.players| ensures !(db.players[i].game == g && db.players[i].user == user) {
      assert db.players[i] in db.players;
    }
    db.events := db.events + [PlayerLeft(g, user)];
    r := Ok(());
  }

  /**
   * Orders are not renumbered when a player leaves, and a join takes the
   * count plus one: with seats 1, 2, 3, the player with 2 leaves and the next
   * joiner is given 3 again.
   */
  lemma LeaveThenJoinRepeatsOrder()
    ensures var before := [NewPlayer(7, 10, 1), NewPlayer(7, 20, 2), NewPlayer(7, 30, 3)];
      var after := WithoutPlayer(before, 7, 20);
      var order := PlayerCount(after, 7) + 1;
      && DistinctOrders(before, 7)
      && order == 3
      && !DistinctOrders(after + [NewPlayer(7, 40, order)], 7)
  {
    var before := [NewPlayer(7, 10, 1), NewPlayer(7, 20, 2), NewPlayer(7, 30, 3)];
    var after := WithoutPlayer(before, 7, 20);
    assert before[1..] == [NewPlayer(7, 20, 2), NewPlayer(7, 30, 3)];
    assert before[1..][1..] == [NewPlayer(7, 30, 3)];
    assert after == [NewPlayer(7, 10, 1), NewPlayer(7, 30, 3)];
    assert PlayersOf(after, 7) == after by {
      assert after[1..] == [NewPlayer(7, 30, 3)];
    }
    var joined := after + [NewPlayer(7, 40, 3)];
    assert joined[1].order == joined[2].order;
  }
}
