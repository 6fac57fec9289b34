/**
 * The per-room state machine of server.js as values: a snapshot of one room
 * record, the update each handler applies to it, the events the handlers
 * emit, and the round discipline of `gameOver` over the emitted events.
 */
module RoomMachine {
  import opened Wrappers
  import opened Board
  import opened Scoring

  /**
   * socket.io connection identifiers and room codes: only their equality
   * matters to the server, so they are left abstract.
   */
  type SocketId(==, !new)
  type RoomCode(==, !new)

  /** The `error` messages the handlers send back to the requesting socket. */
  datatype Error = RoomNotFound | RoomFull | NotEnoughPlayers | AlreadyStarted

  /**
   * A snapshot of one room record: `board`, `players`, `clicks`,
   * `gameStarted`, `gameEnded`, whether `timer` holds a pending timeout,
   * and `maxPlayers`.
   */
  datatype Room = Room(
    board: seq<int>,
    players: seq<SocketId>,
    clicks: map<SocketId, nat>,
    gameStarted: bool,
    gameEnded: bool,
    timerArmed: bool,
    maxPlayers: nat)

  function PlayerSet(players: seq<SocketId>): set<SocketId> {
    set p | p in players
  }

  /**
   * What every room record satisfies between handlers: a 36-cell board of
   * colours below `maxPlayers`, a non-empty roster no larger than
   * `maxPlayers`, one click counter per player, never started and ended at
   * once, a full roster once a round has begun, and a pending timer only
   * while a round runs.
   */
  ghost predicate Inv(v: Room) {
    && ValidCapacity(v.maxPlayers)
    && |v.board| == Cells
    && CellsBelow(v.board, v.maxPlayers)
    && 1 <= |v.players| <= v.maxPlayers
    && v.clicks.Keys == PlayerSet(v.players)
    && !(v.gameStarted && v.gameEnded)
    && (v.gameStarted || v.gameEnded ==> |v.players| == v.maxPlayers)
    && (v.timerArmed ==> v.gameStarted)
  }

  /** A round is under way: flips are accepted. */
  predicate Running(v: Room) {
    v.gameStarted && !v.gameEnded
  }

  /** The record createRoom stores: the creator alone, with no clicks, before any round. */
  function Created(board: seq<int>, creator: SocketId, maxPlayers: nat): (v: Room)
    requires ValidCapacity(maxPlayers) && IsEvenBoard(board, maxPlayers)
    ensures Inv(v) && !Running(v) && !v.timerArmed
  {
    Room(board, [creator], map[creator := 0], false, false, false, maxPlayers)
  }

  /** joinRoom on a room with a free slot: the joiner is appended and its clicks are zeroed. */
  function Joined(v: Room, s: SocketId): (w: Room)
    requires Inv(v) && |v.players| < v.maxPlayers
    ensures Inv(w)
    ensures s in w.players && s in w.clicks && w.clicks[s] == 0
  {
    v.(players := v.players + [s], clicks := v.clicks[s := 0])
  }

  /** startGame on a full room not yet started: the round runs and the timer is armed. */
  function Started(v: Room): (w: Room)
    requires Inv(v) && |v.players| == v.maxPlayers && !v.gameStarted
    ensures Inv(w) && Running(w) && w.timerArmed
  {
    v.(gameStarted := true, gameEnded := false, timerArmed := true)
  }

  /**
   * flipCell during a round: cell `index` moves to the next colour
   * cyclically and the flipper's click count goes up by one.
   */
  function Flipped(v: Room, index: int, s: SocketId): (w: Room)
    requires Inv(v) && Running(v) && 0 <= index < Cells && s in v.players
    ensures Inv(w) && Running(w)
  {
    v.(board := v.board[index := (v.board[index] + 1) % v.maxPlayers],
       clicks := v.clicks[s := v.clicks[s] + 1])
  }

  /** The timer cleared by an all-kill, before endGame runs. */
  function TimerCleared(v: Room): (w: Room)
    requires Inv(v)
    ensures Inv(w) && !w.timerArmed
  {
    v.(timerArmed := false)
  }

  /** endGame on a running round: the round is over and no timer is pending. */
  function Ended(v: Room): (w: Room)
    requires Inv(v) && v.gameStarted
    ensures Inv(w) && w.gameEnded && !Running(w) && !w.timerArmed
  {
    v.(gameEnded := true, gameStarted := false, timerArmed := false)
  }

  /** The click table rematch installs: zero for exactly the current players. */
  function ZeroClicks(players: seq<SocketId>): map<SocketId, nat> {
    map p | p in players :: 0
  }

  /**
   * rematch: a new board, zeroed clicks, no timer, back before the start;
   * roster and capacity are kept.
   */
  function Rematched(v: Room, board: seq<int>): (w: Room)
    requires Inv(v) && IsEvenBoard(board, v.maxPlayers)
    ensures Inv(w) && !w.gameStarted && !w.gameEnded && !w.timerArmed
    ensures forall p :: p in w.players ==> p in w.clicks && w.clicks[p] == 0
    ensures forall p :: p in w.clicks ==> p in w.players
  {
    v.(board := board, clicks := ZeroClicks(v.players), gameStarted := false, gameEnded := false, timerArmed := false)
  }

  /** The all-kill test of flipCell: some colour count equals 36. */
  predicate IsAllKill(v: Room) {
    Cells in ColorCounts(v.board, v.maxPlayers)
  }

  /** The `gameOver` payload endGame computes for this room. */
  function RoundResult(v: Room, isAllKill: bool): GameResult
    requires |v.players| <= v.maxPlayers
  {
    Resolve(ColorCounts(v.board, v.maxPlayers), v.players, v.clicks, isAllKill)
  }

  /**
   * A flip moves exactly one cell from its colour to the next one: that
   * colour loses one cell, the next gains one, every other count is kept.
   */
  lemma FlipMovesOneCell(v: Room, index: int, s: SocketId, c: int)
    requires Inv(v) && Running(v) && 0 <= index < Cells && s in v.players
    ensures var old_c := v.board[index];
            var new_c := (old_c + 1) % v.maxPlayers;
            Count(Flipped(v, index, s).board, c)
              == Count(v.board, c) - (if c == old_c then 1 else 0) + (if c == new_c then 1 else 0)
  {
    CountUpdate(v.board, index, (v.board[index] + 1) % v.maxPlayers, c);
  }

  /** In a room with at least one player the result names a winner; `'tie'` never happens. */
  lemma ResultHasWinner(v: Room, isAllKill: bool)
    requires Inv(v)
    ensures RoundResult(v, isAllKill).winner.Player?
    ensures 1 <= RoundResult(v, isAllKill).winner.number <= |v.players|
  {
    ResolveSpec(ColorCounts(v.board, v.maxPlayers), v.players, v.clicks, isAllKill);
  }

  /**
   * An all-kill in a room whose round has begun is won by the owner of the
   * colour that fills the board.
   */
  lemma AllKillWonByOwner(v: Room, isAllKill: bool)
    requires Inv(v) && (v.gameStarted || v.gameEnded) && IsAllKill(v)
    ensures exists c :: 0 <= c < v.maxPlayers && Filled(v.board, c)
                        && RoundResult(v, isAllKill).winner == Player(c + 1)
  {
    AllKillIffUniform(v.board, v.maxPlayers);
    var c :| 0 <= c < v.maxPlayers && Filled(v.board, c);
    AllKillWinner(v.board, v.players, v.clicks, c);
  }

  // ----- emitted events -----

  /**
   * The events the handlers emit, one per decision. The `gameOver` that
   * endGame sends to each player and again to the room is one event here.
   */
  datatype Event =
    | RoomCreated(code: RoomCode, to: SocketId, board: seq<int>, playerNumber: nat, maxPlayers: nat)
    | RoomJoined(code: RoomCode, to: SocketId, board: seq<int>, playerNumber: nat, maxPlayers: nat)
    | PlayerCountUpdate(code: RoomCode, currentPlayers: nat, maxPlayers: nat)
    | ErrorTo(to: SocketId, error: Error)
    | GameStarted(code: RoomCode)
    | BoardUpdate(code: RoomCode, board: seq<int>, clickedIndex: int, clicks: map<SocketId, nat>)
    | GameOver(code: RoomCode, result: GameResult)
    | RematchStarted(code: RoomCode, board: seq<int>)
    | OpponentLeft(code: RoomCode, leaver: SocketId)

  /**
   * The last round event for room `c` in `log`: `Some(true)` if it is
   * `gameStarted`, `Some(false)` if it is `gameOver`, `None` if there is none.
   */
  function RoundMark(log: seq<Event>, c: RoomCode): Option<bool> {
    if log == [] then None
    else
      var e := log[|log| - 1];
      if e == GameStarted(c) then Some(true)
      else if e.GameOver? && e.code == c then Some(false)
      else RoundMark(log[..|log| - 1], c)
  }

  /**
   * Every `gameOver` for a room directly follows, among that room's round
   * events, a `gameStarted`: one result per round at most.
   */
  ghost predicate WellRounded(log: seq<Event>) {
    log == [] ||
    (var e := log[|log| - 1];
     WellRounded(log[..|log| - 1]) && (e.GameOver? ==> RoundMark(log[..|log| - 1], e.code) == Some(true)))
  }

  /** Appending an event that is not a round event keeps every room's mark and the discipline. */
  lemma AppendOther(log: seq<Event>, e: Event)
    requires Quiet(e)
    ensures forall c :: RoundMark(log + [e], c) == RoundMark(log, c)
    ensures WellRounded(log + [e]) == WellRounded(log)
  {
    assert (log + [e])[..|log|] == log;
  }

  /** Appending `gameStarted` marks its room as running and keeps the discipline. */
  lemma AppendStarted(log: seq<Event>, c: RoomCode)
    ensures RoundMark(log + [GameStarted(c)], c) == Some(true)
    ensures forall d :: d != c ==> RoundMark(log + [GameStarted(c)], d) == RoundMark(log, d)
    ensures WellRounded(log + [GameStarted(c)]) == WellRounded(log)
  {
    assert (log + [GameStarted(c)])[..|log|] == log;
  }

  /** Appending `gameOver` is allowed only after its room's `gameStarted`. */
  lemma AppendGameOver(log: seq<Event>, c: RoomCode, r: GameResult)
    requires WellRounded(log) && RoundMark(log, c) == Some(true)
    ensures RoundMark(log + [GameOver(c, r)], c) == Some(false)
    ensures forall d :: d != c ==> RoundMark(log + [GameOver(c, r)], d) == RoundMark(log, d)
    ensures WellRounded(log + [GameOver(c, r)])
  {
    assert (log + [GameOver(c, r)])[..|log|] == log;
  }

  /** A log obeying the discipline obeys it on every prefix. */
  lemma {:induction false} WellRoundedPrefix(log: seq<Event>, n: nat)
    requires WellRounded(log) && n <= |log|
    ensures WellRounded(log[..n])
  {
    if n < |log| {
      WellRoundedPrefix(log[..|log| - 1], n);
      assert log[..|log| - 1][..n] == log[..n];
    } else {
      assert log[..n] == log;
    }
  }

  /** A room marked running has a `gameStarted` after each of its earlier `gameOver`s. */
  lemma {:induction false} StartedAfter(log: seq<Event>, c: RoomCode, i: nat)
    requires RoundMark(log, c) == Some(true)
    requires i < |log| && log[i].GameOver? && log[i].code == c
    ensures exists k :: i < k < |log| && log[k] == GameStarted(c)
  {
    var n := |log| - 1;
    if log[n] != GameStarted(c) {
      assert i < n;
      StartedAfter(log[..n], c, i);
      var k :| i < k < n && log[..n][k] == GameStarted(c);
      assert log[k] == GameStarted(c);
    }
  }

  /**
   * Under the discipline, two `gameOver` events for the same room always
   * have a `gameStarted` for that room between them: a second call of
   * endGame for a round that already ended produces nothing.
   */
  lemma GameOversSeparated(log: seq<Event>, i: nat, j: nat)
    requires WellRounded(log)
    requires i < j < |log| && log[i].GameOver? && log[j].GameOver? && log[i].code == log[j].code
    ensures exists k :: i < k < j && log[k] == GameStarted(log[i].code)
  {
    var c := log[i].code;
    MarkBeforeGameOver(log, j);
    StartedAfter(log[..j], c, i);
    var k :| i < k < j && log[..j][k] == GameStarted(c);
    assert log[k] == GameStarted(c);
  }

  /** Under the discipline, the room of every `gameOver` is marked running just before it. */
  lemma MarkBeforeGameOver(log: seq<Event>, j: nat)
    requires WellRounded(log) && j < |log| && log[j].GameOver?
    ensures RoundMark(log[..j], log[j].code) == Some(true)
  {
    WellRoundedPrefix(log, j + 1);
    var p := log[..j + 1];
    assert p[..j] == log[..j];
    assert p[j] == log[j];
  }

  // ----- registry scan order -----

  /** No code occurs twice. */
  predicate NoDuplicates(codes: seq<RoomCode>) {
    forall i, j :: 0 <= i < j < |codes| ==> codes[i] != codes[j]
  }

  /** `codes` with `x` removed, the rest in order: what `rooms.delete` leaves of the insertion order. */
  function Without(codes: seq<RoomCode>, x: RoomCode): (r: seq<RoomCode>)
    ensures forall y :: y in r <==> y in codes && y != x
    ensures NoDuplicates(codes) ==> NoDuplicates(r)
  {
    if codes == [] then []
    else
      var rest := Without(codes[1..], x);
      assert forall y :: y in codes[1..] ==> y in codes;
      assert NoDuplicates(codes) ==> NoDuplicates(codes[1..]) && codes[0] !in rest by {
        if NoDuplicates(codes) {
          forall y | y in codes[1..] ensures y != codes[0] {
            var j :| 0 <= j < |codes[1..]| && codes[1..][j] == y;
            assert codes[j + 1] == y;
          }
        }
      }
      if codes[0] == x then rest else [codes[0]] + rest
  }

  /**
   * The room the disconnect scan deletes: the first room, in insertion
   * order, whose roster contains `s`.
   */
  function FirstRoomWith(codes: seq<RoomCode>, rooms: map<RoomCode, Room>, s: SocketId): Option<RoomCode>
    requires forall c :: c in codes ==> c in rooms
  {
    if codes == [] then None
    else if s in rooms[codes[0]].players then Some(codes[0])
    else FirstRoomWith(codes[1..], rooms, s)
  }

  /**
   * The scan finds nothing exactly when no listed room holds the socket,
   * and otherwise the first listed room that does.
   */
  lemma {:induction false} FirstRoomWithIsFirst(codes: seq<RoomCode>, rooms: map<RoomCode, Room>, s: SocketId)
    requires forall c :: c in codes ==> c in rooms
    ensures FirstRoomWith(codes, rooms, s).None? <==> forall i :: 0 <= i < |codes| ==> s !in rooms[codes[i]].players
    ensures FirstRoomWith(codes, rooms, s).Some? ==>
              exists i :: 0 <= i < |codes| && codes[i] == FirstRoomWith(codes, rooms, s).value
                          && s in rooms[codes[i]].players
                          && forall j :: 0 <= j < i ==> s !in rooms[codes[j]].players
  {
    if codes != [] && s !in rooms[codes[0]].players {
      var tail := codes[1..];
      FirstRoomWithIsFirst(tail, rooms, s);
      forall i | 1 <= i < |codes| ensures codes[i] == tail[i - 1] { }
      if FirstRoomWith(tail, rooms, s).Some? {
        var i :| 0 <= i < |tail| && tail[i] == FirstRoomWith(tail, rooms, s).value
                 && s in rooms[tail[i]].players
                 && forall j :: 0 <= j < i ==> s !in rooms[tail[j]].players;
        assert codes[i + 1] == tail[i];
      }
    }
  }

  // ----- the registry as values -----

  /**
   * What the `rooms` map, its insertion order and the emitted events
   * satisfy between handlers: every record keeps the room invariant, the
   * order lists each stored code once, `gameOver` keeps the round
   * discipline, and the last round event of a room whose round runs is its
   * `gameStarted`.
   */
  ghost predicate Coherent(rooms: map<RoomCode, Room>, order: seq<RoomCode>, log: seq<Event>) {
    && (forall c :: c in rooms ==> Inv(rooms[c]))
    && NoDuplicates(order)
    && (forall c :: c in order <==> c in rooms)
    && WellRounded(log)
    && (forall c :: c in rooms && rooms[c].gameStarted ==> RoundMark(log, c) == Some(true))
  }

  /**
   * A pending timeout for every running room, except possibly the room
   * `exempt`: startGame arms the timer together with the round, and every
   * path that stops a round clears it. Only inside flipCell's all-kill
   * branch does a running room briefly have no timer, just before
   * endGame ends it.
   */
  ghost predicate TimersPending(rooms: map<RoomCode, Room>, exempt: Option<RoomCode>) {
    forall c :: c in rooms && Running(rooms[c]) && exempt != Some(c) ==> rooms[c].timerArmed
  }

  /** An event that is neither `gameStarted` nor `gameOver`. */
  predicate Quiet(e: Event) {
    !e.GameStarted? && !e.GameOver?
  }

  /** Logging one event that is neither `gameStarted` nor `gameOver`. */
  lemma CoherentLogOne(rooms: map<RoomCode, Room>, order: seq<RoomCode>, log: seq<Event>, e: Event)
    requires Coherent(rooms, order, log) && Quiet(e)
    ensures Coherent(rooms, order, log + [e])
  {
    AppendOther(log, e);
  }

  /** Logging events that are neither `gameStarted` nor `gameOver`. */
  lemma {:induction false} CoherentLog(rooms: map<RoomCode, Room>, order: seq<RoomCode>, log: seq<Event>, es: seq<Event>)
    requires Coherent(rooms, order, log)
    requires forall k :: 0 <= k < |es| ==> Quiet(es[k])
    ensures Coherent(rooms, order, log + es)
  {
    if es == [] {
      assert log + es == log;
    } else {
      var init, e := es[..|es| - 1], es[|es| - 1];
      assert forall k :: 0 <= k < |init| ==> init[k] == es[k];
      CoherentLog(rooms, order, log, init);
      CoherentLogOne(rooms, order, log + init, e);
      assert log + init + [e] == log + es;
    }
  }

  /**
   * Storing a record under a code, the code joining the end of the order
   * when it is new, and logging events that are not round events; a
   * running record may only replace a running one.
   */
  lemma CoherentStore(rooms: map<RoomCode, Room>, order: seq<RoomCode>, log: seq<Event>,
                      code: RoomCode, v: Room, es: seq<Event>)
    requires Coherent(rooms, order, log) && Inv(v)
    requires v.gameStarted ==> code in rooms && rooms[code].gameStarted
    requires forall k :: 0 <= k < |es| ==> Quiet(es[k])
    ensures Coherent(rooms[code := v], if code in rooms then order else order + [code], log + es)
  {
    var order' := if code in rooms then order else order + [code];
    if code !in rooms {
      forall i, j | 0 <= i < j < |order'| ensures order'[i] != order'[j] {
        if j == |order| {
          assert order[i] in rooms;
        }
      }
    }
    assert Coherent(rooms[code := v], order', log);
    CoherentLog(rooms[code := v], order', log, es);
  }

  /** Two stores under one code leave only the second. */
  lemma StoreTwice(rooms: map<RoomCode, Room>, code: RoomCode, v: Room, w: Room)
    ensures rooms[code := v][code := w] == rooms[code := w]
  {
  }

  /** Logging two events one after the other logs both. */
  lemma LogTwice(log: seq<Event>, e1: Event, e2: Event)
    ensures log + [e1] + [e2] == log + [e1, e2]
  {
  }

  /** startGame: the record under a stored code becomes running and `gameStarted` is logged. */
  lemma CoherentStart(rooms: map<RoomCode, Room>, order: seq<RoomCode>, log: seq<Event>,
                      code: RoomCode, v: Room)
    requires Coherent(rooms, order, log) && code in rooms && Inv(v)
    ensures Coherent(rooms[code := v], order, log + [GameStarted(code)])
  {
    AppendStarted(log, code);
  }

  /**
   * endGame: the record of a running room stops running and its
   * `gameOver` is logged.
   */
  lemma CoherentEnd(rooms: map<RoomCode, Room>, order: seq<RoomCode>, log: seq<Event>,
                    code: RoomCode, v: Room, r: GameResult)
    requires Coherent(rooms, order, log) && code in rooms && rooms[code].gameStarted
    requires Inv(v) && !v.gameStarted
    ensures Coherent(rooms[code := v], order, log + [GameOver(code, r)])
  {
    AppendGameOver(log, code, r);
  }

  /** `rooms.delete(code)`: the record goes and the code leaves the order. */
  lemma CoherentRemove(rooms: map<RoomCode, Room>, order: seq<RoomCode>, log: seq<Event>, code: RoomCode)
    requires Coherent(rooms, order, log)
    ensures Coherent(rooms - {code}, Without(order, code), log)
  {
  }
}
