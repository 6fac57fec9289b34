/**
 * The socket handlers of server.js over the process-wide `rooms` map. The
 * map, its insertion order and the emitted events are the state of one
 * `Registry` object; each handler is a method that updates that state and
 * states the new state in terms of the room transitions of RoomMachine.
 */
module Server {
  import opened Wrappers
  import opened Board
  import opened Scoring
  import opened RoomMachine

  /** The `rooms` map and the handlers that read and update it. */
  class Registry {
    /** The stored room records, by room code. */
    var rooms: map<RoomCode, Room>
    /** The insertion order of `rooms`, which the disconnect scan follows. */
    var order: seq<RoomCode>
    /** Every emission so far, in order. */
    ghost var log: seq<Event>

    /** The registry invariant, and a pending timeout for every running room. */
    ghost predicate Valid()
      reads this
    {
      Coherent(rooms, order, log) && TimersPending(rooms, None)
    }

    /** `new Map()`. */
    constructor ()
      ensures Valid()
      ensures rooms == map[] && order == [] && log == []
    {
      rooms := map[];
      order := [];
      log := [];
    }

    /**
     * createRoom: a fresh even board and a record holding only the creator,
     * stored under `code` and announced to the creator as player 1; a room
     * already stored under `code` is replaced and keeps its place in the
     * order.
     */
    method CreateRoom(code: RoomCode, maxPlayers: nat, s: SocketId)
      requires Valid() && ValidCapacity(maxPlayers)
      modifies this
      ensures Valid()
      ensures code in rooms && IsEvenBoard(rooms[code].board, maxPlayers)
      ensures rooms == old(rooms)[code := Created(rooms[code].board, s, maxPlayers)]
      ensures order == if code in old(rooms) then old(order) else old(order) + [code]
      ensures log == old(log) + [RoomCreated(code, s, rooms[code].board, 1, maxPlayers)]
    {
      var board := CreateInitialBoard(maxPlayers);
      var room := Created(board[..], s, maxPlayers);
      var e := RoomCreated(code, s, board[..], 1, maxPlayers);
      var order' := if code in rooms then order else order + [code];
      CoherentStore(rooms, order, log, code, room, [e]);
      rooms, order, log := rooms[code := room], order', log + [e];
    }

    /**
     * joinRoom: an unknown code or a full room is answered with an error
     * and changes nothing else; otherwise the joiner gets the next player
     * number, the roster grows by the joiner, and the room is told the new
     * head count.
     */
    method JoinRoom(code: RoomCode, s: SocketId) returns (r: Result<nat, Error>)
      requires Valid()
      modifies this
      ensures Valid() && order == old(order)
      ensures code !in old(rooms) ==>
                r == Failure(RoomNotFound) && rooms == old(rooms) && log == old(log) + [ErrorTo(s, RoomNotFound)]
      ensures code in old(rooms) && |old(rooms)[code].players| >= old(rooms)[code].maxPlayers ==>
                r == Failure(RoomFull) && rooms == old(rooms) && log == old(log) + [ErrorTo(s, RoomFull)]
      ensures code in old(rooms) && |old(rooms)[code].players| < old(rooms)[code].maxPlayers ==>
                var v := old(rooms)[code];
                var n := |v.players| + 1;
                && r == Success(n) && 2 <= n <= v.maxPlayers
                && rooms == old(rooms)[code := Joined(v, s)]
                && log == old(log) + [RoomJoined(code, s, v.board, n, v.maxPlayers),
                                      PlayerCountUpdate(code, n, v.maxPlayers)]
    {
      if code !in rooms {
        CoherentLog(rooms, order, log, [ErrorTo(s, RoomNotFound)]);
        log := log + [ErrorTo(s, RoomNotFound)];
        return Failure(RoomNotFound);
      }
      var v := rooms[code];
      if |v.players| >= v.maxPlayers {
        CoherentLog(rooms, order, log, [ErrorTo(s, RoomFull)]);
        log := log + [ErrorTo(s, RoomFull)];
        return Failure(RoomFull);
      }
      var n := |v.players| + 1;
      var w := Joined(v, s);
      var e1 := RoomJoined(code, s, v.board, n, v.maxPlayers);
      var e2 := PlayerCountUpdate(code, n, v.maxPlayers);
      CoherentStore(rooms, order, log, code, w, [e1, e2]);
      rooms, log := rooms[code := w], log + [e1, e2];
      r := Success(n);
    }

    /**
     * startGame: errors for an unknown code, a roster that is not full and
     * a round already under way, checked in that order; otherwise the round
     * starts, its 30-second timer is armed and the room is told.
     */
    method StartGame(code: RoomCode, s: SocketId) returns (r: Outcome<Error>)
      requires Valid()
      modifies this
      ensures Valid() && order == old(order)
      ensures code !in old(rooms) ==>
                r == Fail(RoomNotFound) && rooms == old(rooms) && log == old(log) + [ErrorTo(s, RoomNotFound)]
      ensures code in old(rooms) && |old(rooms)[code].players| < old(rooms)[code].maxPlayers ==>
                r == Fail(NotEnoughPlayers) && rooms == old(rooms) && log == old(log) + [ErrorTo(s, NotEnoughPlayers)]
      ensures code in old(rooms) && |old(rooms)[code].players| == old(rooms)[code].maxPlayers
              && old(rooms)[code].gameStarted ==>
                r == Fail(AlreadyStarted) && rooms == old(rooms) && log == old(log) + [ErrorTo(s, AlreadyStarted)]
      ensures code in old(rooms) && |old(rooms)[code].players| == old(rooms)[code].maxPlayers
              && !old(rooms)[code].gameStarted ==>
                r == Pass && rooms == old(rooms)[code := Started(old(rooms)[code])]
                && log == old(log) + [GameStarted(code)]
    {
      var err: Option<Error> := None;
      if code !in rooms {
        err := Some(RoomNotFound);
      } else if |rooms[code].players| < rooms[code].maxPlayers {
        err := Some(NotEnoughPlayers);
      } else if rooms[code].gameStarted {
        err := Some(AlreadyStarted);
      }
      if err.Some? {
        CoherentLog(rooms, order, log, [ErrorTo(s, err.value)]);
        log := log + [ErrorTo(s, err.value)];
        return Fail(err.value);
      }
      var w := Started(rooms[code]);
      CoherentStart(rooms, order, log, code, w);
      rooms, log := rooms[code := w], log + [GameStarted(code)];
      r := Pass;
    }

    /**
     * flipCell: ignored unless the room exists and its round runs;
     * otherwise the cell advances one colour, the flipper's clicks go up by
     * one and the room is sent the board. When one colour then fills the
     * board, the timer is cleared and the round ends at once as an
     * all-kill, and the result is returned.
     */
    method FlipCell(code: RoomCode, s: SocketId, index: int) returns (over: Option<GameResult>)
      requires Valid()
      requires code in rooms && Running(rooms[code]) ==> 0 <= index < Cells && s in rooms[code].players
      modifies this
      ensures Valid() && order == old(order)
      ensures !(code in old(rooms) && Running(old(rooms)[code])) ==>
                over == None && rooms == old(rooms) && log == old(log)
      ensures code in old(rooms) && Running(old(rooms)[code]) ==>
                var w := Flipped(old(rooms)[code], index, s);
                var update := BoardUpdate(code, w.board, index, w.clicks);
                var cleared := TimerCleared(w);
                if IsAllKill(w) then
                  && over == Some(RoundResult(cleared, true))
                  && rooms == old(rooms)[code := Ended(cleared)]
                  && log == old(log) + [update, GameOver(code, RoundResult(cleared, true))]
                else
                  && over == None
                  && rooms == old(rooms)[code := w]
                  && log == old(log) + [update]
    {
      if code !in rooms || !rooms[code].gameStarted || rooms[code].gameEnded {
        return None;
      }
      var w := Flipped(rooms[code], index, s);
      var update := BoardUpdate(code, w.board, index, w.clicks);
      var counts := GetColorCounts(w.board, w.maxPlayers);
      if Cells in counts {
        var cleared := TimerCleared(w);
        CoherentStore(rooms, order, log, code, cleared, [update]);
        ghost var rooms0, log0 := rooms, log;
        rooms, log := rooms[code := cleared], log + [update];
        over := EndGame(code, true);
        StoreTwice(rooms0, code, cleared, Ended(cleared));
        LogTwice(log0, update, GameOver(code, RoundResult(cleared, true)));
      } else {
        CoherentStore(rooms, order, log, code, w, [update]);
        rooms, log := rooms[code := w], log + [update];
        over := None;
      }
    }

    /**
     * endGame: ignored when the room is gone or its round already ended;
     * otherwise the round ends, the timer is cleared, and the result (colour
     * counts as scores, the winner, the kind of win) is sent and returned.
     * Both callers only reach a room that is not ended while its round runs.
     * The all-kill caller has just cleared this room's timer, so only the
     * other running rooms are required to have theirs pending.
     */
    method EndGame(code: RoomCode, isAllKill: bool) returns (over: Option<GameResult>)
      requires Coherent(rooms, order, log) && TimersPending(rooms, Some(code))
      requires code in rooms && !rooms[code].gameEnded ==> rooms[code].gameStarted
      modifies this
      ensures Valid() && order == old(order)
      ensures code !in old(rooms) || old(rooms)[code].gameEnded ==>
                over == None && rooms == old(rooms) && log == old(log)
      ensures code in old(rooms) && !old(rooms)[code].gameEnded ==>
                var v := old(rooms)[code];
                && over == Some(RoundResult(v, isAllKill))
                && rooms == old(rooms)[code := Ended(v)]
                && log == old(log) + [GameOver(code, RoundResult(v, isAllKill))]
    {
      if code !in rooms || rooms[code].gameEnded {
        return None;
      }
      var v := rooms[code];
      var counts := GetColorCounts(v.board, v.maxPlayers);
      var result := Resolve(counts, v.players, v.clicks, isAllKill);
      var w := Ended(v);
      CoherentEnd(rooms, order, log, code, w, result);
      rooms, log := rooms[code := w], log + [GameOver(code, result)];
      over := Some(result);
    }

    /**
     * The 30-second timeout of startGame firing: endGame without the
     * all-kill flag. A timeout fires only while it is pending, and every
     * path that ends or leaves the round cancels it first.
     */
    method TimerFires(code: RoomCode) returns (over: Option<GameResult>)
      requires Valid() && code in rooms && rooms[code].timerArmed
      modifies this
      ensures Valid() && order == old(order)
      ensures over == Some(RoundResult(old(rooms)[code], false))
      ensures rooms == old(rooms)[code := Ended(old(rooms)[code])]
      ensures log == old(log) + [GameOver(code, RoundResult(old(rooms)[code], false))]
    {
      over := EndGame(code, false);
    }

    /**
     * rematch: ignored for an unknown code; otherwise the timer is cleared,
     * the room gets a fresh even board and zeroed clicks, returns to before
     * the start with its roster kept, and is sent the new board.
     */
    method Rematch(code: RoomCode)
      requires Valid()
      modifies this
      ensures Valid() && order == old(order)
      ensures code !in old(rooms) ==> rooms == old(rooms) && log == old(log)
      ensures code in old(rooms) ==>
                && code in rooms && IsEvenBoard(rooms[code].board, old(rooms)[code].maxPlayers)
                && rooms == old(rooms)[code := Rematched(old(rooms)[code], rooms[code].board)]
                && log == old(log) + [RematchStarted(code, rooms[code].board)]
    {
      if code !in rooms {
        return;
      }
      var cleared := TimerCleared(rooms[code]);
      var board := CreateInitialBoard(cleared.maxPlayers);
      var w := Rematched(cleared, board[..]);
      assert w == Rematched(rooms[code], board[..]);
      var e := RematchStarted(code, board[..]);
      CoherentStore(rooms, order, log, code, w, [e]);
      rooms, log := rooms[code := w], log + [e];
    }

    /**
     * disconnect: the first room in insertion order whose roster holds the
     * leaving socket is deleted, after the other players are told unless
     * its round had ended; no other room is touched.
     */
    method Disconnect(s: SocketId) returns (removed: Option<RoomCode>)
      requires Valid()
      modifies this
      ensures Valid()
      ensures removed == FirstRoomWith(old(order), old(rooms), s)
      ensures removed.None? ==> rooms == old(rooms) && order == old(order) && log == old(log)
      ensures removed.Some? ==>
                var c := removed.value;
                && c in old(rooms)
                && rooms == old(rooms) - {c}
                && order == Without(old(order), c)
                && log == old(log) + (if old(rooms)[c].gameEnded then [] else [OpponentLeft(c, s)])
    {
      var i := 0;
      while i < |order| && s !in rooms[order[i]].players
        invariant 0 <= i <= |order|
        invariant FirstRoomWith(order, rooms, s) == FirstRoomWith(order[i..], rooms, s)
      {
        assert order[i..][1..] == order[i + 1..];
        i := i + 1;
      }
      if i == |order| {
        assert order[i..] == [];
        return None;
      }
      var c := order[i];
      assert order[i..][0] == c;
      if !rooms[c].gameEnded {
        CoherentLog(rooms, order, log, [OpponentLeft(c, s)]);
        log := log + [OpponentLeft(c, s)];
      }
      CoherentRemove(rooms, order, log, c);
      rooms, order := rooms - {c}, Without(order, c);
      removed := Some(c);
    }
  }
}
