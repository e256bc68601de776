/**
 * The real-time server's in-memory bookkeeping of who is connected to which
 * game: `gameRooms` (game id to the set of socket ids in its room) and
 * `playerSockets` (socket id to what the client said about itself when it
 * joined). Only the updates to these two maps are modelled; the broadcasts
 * that accompany them are not.
 */
module Realtime {
  import opened Tables

  type SocketId = string

  /** What a client sent with `join-game`; the server does not check it. */
  datatype SocketInfo = SocketInfo(userId: UserId, gameId: GameId, username: string)

  /** No game is tracked with an empty room: the last socket to go takes the entry with it. */
  ghost predicate NoEmptyRooms(rooms: map<GameId, set<SocketId>>)
  {
    forall g :: g in rooms ==> rooms[g] != {}
  }

  /** Adding socket `s` to game `g`'s room, creating the room when it is new. */
  function AddSocket(rooms: map<GameId, set<SocketId>>, g: GameId, s: SocketId): (r: map<GameId, set<SocketId>>)
    ensures r.Keys == rooms.Keys + {g}
    ensures s in r[g] && r[g] - {s} == (if g in rooms then rooms[g] else {}) - {s}
    ensures forall h :: h in rooms && h != g ==> r[h] == rooms[h]
    ensures NoEmptyRooms(rooms) ==> NoEmptyRooms(r)
  {
    rooms[g := (if g in rooms then rooms[g] else {}) + {s}]
  }

  /** Taking socket `s` out of game `g`'s room and dropping the room once it is empty. */
  function RemoveSocket(rooms: map<GameId, set<SocketId>>, g: GameId, s: SocketId): (r: map<GameId, set<SocketId>>)
    ensures r.Keys <= rooms.Keys
    ensures forall h :: h in rooms && h != g ==> h in r && r[h] == rooms[h]
    ensures g in r <==> g in rooms && rooms[g] - {s} != {}
    ensures g in r ==> r[g] == rooms[g] - {s}
    ensures NoEmptyRooms(rooms) ==> NoEmptyRooms(r)
  {
    if g !in rooms then rooms
    else if rooms[g] - {s} == {} then rooms - {g}
    else rooms[g := rooms[g] - {s}]
  }

  /** Joining a room and leaving it again restores the rooms exactly, when the socket was not already there. */
  lemma {:induction false} JoinThenLeaveRestoresRooms(rooms: map<GameId, set<SocketId>>, g: GameId, s: SocketId)
    requires NoEmptyRooms(rooms)
    requires g in rooms ==> s !in rooms[g]
    ensures RemoveSocket(AddSocket(rooms, g, s), g, s) == rooms
  {
    var r := RemoveSocket(AddSocket(rooms, g, s), g, s);
    if g in rooms {
      assert rooms[g] + {s} - {s} == rooms[g];
      assert r[g] == rooms[g];
    } else {
      assert r.Keys == rooms.Keys;
    }
  }

  /**
   * A socket that joins a second game without leaving the first stays in the
   * first game's room after it disconnects: disconnecting only clears the
   * room of the game the socket joined last.
   */
  lemma RejoinLeavesStaleMembership(rooms: map<GameId, set<SocketId>>, g1: GameId, g2: GameId, s: SocketId)
    requires g1 != g2
    ensures var joined := AddSocket(AddSocket(rooms, g1, s), g2, s);
      var gone := RemoveSocket(joined, g2, s);
      g1 in gone && s in gone[g1]
  {
  }

  /** The two maps, updated in place by the socket event handlers. */
  class Presence {
    var gameRooms: map<GameId, set<SocketId>>
    var playerSockets: map<SocketId, SocketInfo>

    ghost predicate Valid()
      reads this
    {
      NoEmptyRooms(gameRooms)
    }

    constructor ()
      ensures Valid()
      ensures gameRooms == map[] && playerSockets == map[]
    {
      gameRooms, playerSockets := map[], map[];
    }

    /**
     * `join-game`: remember what the socket said and put it in the game's
     * room; answer with the number of sockets now in that room. The socket
     * is not taken out of the room of any game it joined before.
     */
    method JoinGame(socket: SocketId, info: SocketInfo) returns (roomSize: nat)
      requires Valid()
      modifies this
      ensures Valid()
      ensures playerSockets == old(playerSockets)[socket := info]
      ensures gameRooms == AddSocket(old(gameRooms), info.gameId, socket)
      ensures roomSize == |gameRooms[info.gameId]| && roomSize >= 1
      ensures forall h :: h in old(gameRooms) && h != info.gameId ==> socket in old(gameRooms)[h] ==> socket in gameRooms[h]
    {
      playerSockets := playerSockets[socket := info];
      if info.gameId !in gameRooms {
        gameRooms := gameRooms[info.gameId := {}];
      }
      gameRooms := gameRooms[info.gameId := gameRooms[info.gameId] + {socket}];
      roomSize := |gameRooms[info.gameId]|;
    }

    /** `leave-game`: leave the named game's room and forget the socket. */
    method LeaveGame(socket: SocketId, gameId: GameId)
      requires Valid()
      modifies this
      ensures Valid()
      ensures gameRooms == RemoveSocket(old(gameRooms), gameId, socket)
      ensures playerSockets == old(playerSockets) - {socket}
      ensures gameId in gameRooms ==> socket !in gameRooms[gameId]
    {
      if gameId in gameRooms {
        var rest := gameRooms[gameId] - {socket};
        gameRooms := gameRooms[gameId := rest];
        if |gameRooms[gameId]| == 0 {
          gameRooms := gameRooms - {gameId};
        }
      }
      playerSockets := playerSockets - {socket};
    }

    /** `game-deleted`: stop tracking the game's room; what its sockets said about themselves stays. */
    method GameDeleted(gameId: GameId)
      requires Valid()
      modifies this
      ensures Valid()
      ensures gameRooms == old(gameRooms) - {gameId}
      ensures playerSockets == old(playerSockets)
    {
      if gameId in gameRooms {
        gameRooms := gameRooms - {gameId};
      }
    }

    /** `disconnect`: leave the room of the game the socket joined last, then forget the socket. */
    method Disconnect(socket: SocketId)
      requires Valid()
      modifies this
      ensures Valid()
      ensures socket in old(playerSockets) ==>
        gameRooms == RemoveSocket(old(gameRooms), old(playerSockets)[socket].gameId, socket)
      ensures socket !in old(playerSockets) ==> gameRooms == old(gameRooms)
      ensures playerSockets == old(playerSockets) - {socket}
    {
      if socket in playerSockets {
        var gameId := playerSockets[socket].gameId;
        if gameId in gameRooms {
          var rest := gameRooms[gameId] - {socket};
          gameRooms := gameRooms[gameId := rest];
          if |gameRooms[gameId]| == 0 {
            gameRooms := gameRooms - {gameId};
          }
        }
      }
      playerSockets := playerSockets - {socket};
    }
  }
}
