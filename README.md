# Card-flip room engine, modelled in Dafny

`server.js` is the room and session engine of a multiplayer "flip the
board" game. A player creates a room and others join it. Once the roster
is full, a `startGame` request starts the round and arms a 30-second
timer. Every flip moves one of the 36 cells to the next colour,
cyclically. The round ends when one colour fills the whole board (an
"all-kill") or when the timer fires. `endGame` then scores the board and picks
a winner. `rematch` deals a fresh board, and a disconnect deletes the
leaver's room.

The model has five modules:

- `Wrappers` (`wrappers.dfy`): the `Option`, `Result` and `Outcome`
  carriers.
- `Board` (`board.dfy`): `createInitialBoard` as imperative code over an
  `array<int>`. The two push loops are `FillByColour`. The Fisher-Yates
  swap loop is `Shuffle`, with the random index as a nondeterministic
  choice in `[0, i]`. Cell counting (`Count`) and the even-split
  specification (`EvenSplit`, `IsEvenBoard`) live here too.
- `Scoring` (`scoring.dfy`): `getColorCounts` as a loop over a counter
  array, proved against the function `ColorCounts`. The winner computation
  of `endGame` (the `map` / `filter` / `Math.max` / `Math.min` / `find`
  chain) is written as functions. Lemmas characterise the winner as the
  first-ranked player: highest score, then fewest clicks, then lowest
  player number.
- `RoomMachine` (`machine.dfy`):
  - the room record as a value (`Room`) with its invariant `Inv`;
  - the update each handler applies to one record (`Created`, `Joined`,
    `Started`, `Flipped`, `TimerCleared`, `Ended`, `Rematched`);
  - the emitted events (`Event`) and the round discipline of `gameOver`
    over the event log (`WellRounded`);
  - the registry invariant `Coherent`, with one lemma per kind of
    registry update.
- `Server` (`server.dfy`): the process-wide `rooms` map as the class
  `Registry`. Its fields are `rooms` (code to record), `order` (the map's
  insertion order, which the disconnect scan follows) and a ghost event
  `log`. `Valid()` is the registry invariant `Coherent` plus
  `TimersPending`: every running room has its timeout pending, so any
  running round can be ended by `TimerFires`. Every socket handler is a
  method. Each method states its reply and the new `rooms`, `order` and
  `log` in terms of the `RoomMachine` transitions, and keeps `Valid()`.
  The 30-second timeout is the flag `timerArmed` plus the method
  `TimerFires`, which calls `EndGame(code, false)`. So the race between
  the timer and an all-kill becomes two calls in sequence.

Socket ids and room codes are abstract types with equality, because the
server only ever compares them.

The model follows what `server.js` does, including these behaviours a
reader may not expect:

- `rematch` returns the room to before the start, with no timer armed
  (server.js:240-241). It does not start a new round.
- A room code that is already in use is overwritten by `createRoom`
  (server.js:36). Nothing detects the collision.
- Leaders that tie on both score and clicks do not produce a tie.
  `find` returns the lowest player number (server.js:201). `'tie'` comes
  out only when the room has no players.
- `flipCell` does not check `index` (server.js:124), and `createRoom` does
  not reject a capacity that does not divide 36 (server.js:12). Both are
  preconditions here, as is the flipper being a player of the room
  (server.js:125).
- `disconnect` deletes only the first room, in insertion order, whose
  roster holds the socket (server.js:253-263).

## Model

| member | source | states |
|---|---|---|
| Board.Count | server.js:152-160 | the number of cells of a colour never exceeds the board length |
| Board.CountIsMultiplicity | server.js:152-160 | counting a colour equals its multiplicity in the board's multiset |
| Board.CountFull | server.js:138 | a colour counts the whole board exactly when every cell holds it |
| Board.CountAbsent | server.js:152-160 | a colour that no cell holds counts zero |
| Board.CountUpdate | server.js:124 | repainting one cell takes one from its old colour's count, adds one to the new colour's count, and leaves the others |
| Board.CountConcat | server.js:14-18 | counts of a concatenation add up |
| Board.CountRun | server.js:15-17 | a run of `n` pushes of colour `c` counts `n` for `c` and 0 for every other colour |
| Board.EvenSplit | server.js:14-18 | the pushed board only holds colours in `[0, playerCount)` |
| Board.EvenSplitCount | server.js:12-18 | the pushed board holds exactly `per` cells of each colour below `playerCount`, and none of any other |
| Board.EvenSplitLength | server.js:12-18 | the pushed board has `playerCount * per` cells |
| Board.EvenSplitFillsBoard | server.js:12-18 | for a player count dividing 36, the pushed board has exactly 36 cells |
| Board.EvenSplitGrows | server.js:14 | a later colour's board extends an earlier one's, so the push index stays in bounds |
| Board.PermutedSplitIsEven | server.js:20-25 | any rearrangement of the pushed board has 36 cells in `[0, playerCount)`, with `36 / playerCount` of each colour |
| Board.FillByColour | server.js:14-18 | the two push loops leave exactly the even split in the array |
| Board.Shuffle | server.js:20-23 | the swap loop only permutes the cells: the multiset of the array is unchanged |
| Board.CreateInitialBoard | server.js:10-26 | a fresh 36-cell board that is a permutation of the even split, with `36 / playerCount` cells of each colour |
| Scoring.ColorCounts | server.js:152-160 | the specification of the counters, entry `c` counting the cells of colour `c`; `GetColorCounts` is proved equal to it, and `ColorCountsSum` and `AllKillIffUniform` characterise it |
| Scoring.GetColorCounts | server.js:152-160 | the loop returns `maxPlayers` counters, where counter `c` is the number of cells of colour `c` and out-of-range cells are skipped |
| Scoring.CountBelow | server.js:155 | the in-range cell count is at most the board length, is all of it when every cell is in range, and is 0 for no colours |
| Scoring.CountBelowSplit | server.js:155 | raising the colour bound by one adds that colour's count |
| Scoring.ColorCountsSum | server.js:152-160 | the counters sum to the number of in-range cells, so at most the board length, and exactly 36 for a valid board |
| Scoring.AllKillIffUniform | server.js:137-138 | some counter equals 36 exactly when one colour fills the whole board |
| Scoring.ClicksOf | server.js:190 | `room.clicks[playerId] \|\| 0`; `ResolveSpec` states the entries it fills in |
| Scoring.Scores | server.js:187-191 | the `scores` list; `ResolveSpec` states its entries `{i + 1, counts[i], clicks or 0}` in join order |
| Scoring.MaxScore | server.js:193 | `Math.max` over the scores; characterised by `MaxScoreIsMax` |
| Scoring.Leaders | server.js:194 | the filter on the top score; characterised by `LeadersMembers` and `LeadersAscending` |
| Scoring.MinClicks | server.js:200 | `Math.min` over the leaders' clicks; characterised by `MinClicksIsMin` |
| Scoring.FindClicks | server.js:201 | `find` on the leaders; characterised by `FindClicksFirst` |
| Scoring.Pick | server.js:196-203 | the choice among the leaders; characterised by `PickIsFirstFewest` |
| Scoring.WinnerOf | server.js:193-203 | the winner; characterised by `WinnerIsBest` and `WinnerCharacterisation` against the ranking `IsBest` |
| Scoring.Resolve | server.js:186-209 | the `gameOver` payload; characterised by `ResolveSpec` |
| Scoring.MaxScoreIsMax | server.js:193 | `Math.max` bounds every score and is reached by some score |
| Scoring.LeadersMembers | server.js:194 | the filter keeps exactly the entries with the maximum score |
| Scoring.LeadersAscending | server.js:194 | the filter keeps list order, so the leaders' player numbers ascend |
| Scoring.MinClicksIsMin | server.js:200 | `Math.min` bounds every leader's clicks and is reached by some leader |
| Scoring.FindClicksFirst | server.js:201 | `find` fails exactly when no leader has that click count, and otherwise returns the first leader that does |
| Scoring.BestIsUnique | server.js:196-203 | at most one entry ranks first, so the ranking is deterministic |
| Scoring.FirstFewestIsBest | server.js:194-201 | the first leader with the fewest clicks ranks first overall |
| Scoring.TiedLeaderNotEarlier | server.js:201 | a leader with the same clicks as the one `find` returns does not come before it |
| Scoring.PickIsFirstFewest | server.js:196-203 | with at least one leader a winner is always chosen, and it is the first leader with the fewest clicks |
| Scoring.WinnerIsBest | server.js:193-203 | with no players the result is `'tie'`; otherwise the winner has the maximum score, the fewest clicks among the leaders, and the lowest number among those |
| Scoring.WinnerCharacterisation | server.js:193-203 | the winner is player `n` if and only if entry `n - 1` ranks first |
| Scoring.FewerClicksWins | server.js:200-202 | of two entries with the top score, the one with more clicks never wins |
| Scoring.ClicksTieGoesToFirst | server.js:200-202 | when all entries with the top score have equal clicks, the first of them wins, never `'tie'` |
| Scoring.ResolveSpec | server.js:186-209 | the payload has one entry `{i + 1, counts[i], clicks or 0}` per player in join order; `'tie'` occurs exactly when there are no players; otherwise the winner ranks first; `winType` is `'allkill'` exactly for an all-kill |
| Scoring.AllKillWinner | server.js:137-148 | when one colour fills the board, its owner wins whatever the clicks |
| RoomMachine.Created | server.js:36-44 | the created record satisfies the room invariant, is not running, and has no timer |
| RoomMachine.Joined | server.js:70-72 | joining keeps the invariant and gives the joiner a zero click counter |
| RoomMachine.Started | server.js:108-116 | starting keeps the invariant, makes the round run, and arms the timer |
| RoomMachine.Flipped | server.js:124-125 | a flip keeps every cell in `[0, maxPlayers)` and the round running |
| RoomMachine.TimerCleared | server.js:142-145 | clearing the timer keeps the invariant and leaves no timer |
| RoomMachine.Ended | server.js:177-184 | ending leaves the round ended, not running, with no timer, and keeps the invariant |
| RoomMachine.Rematched | server.js:230-241 | rematch keeps the invariant, goes back to before the start with no timer, and zeroes the clicks of exactly the current players |
| RoomMachine.ZeroClicks | server.js:236-239 | the click table of a rematch; `Rematched` states the new click table holds exactly the current players, each at zero |
| RoomMachine.IsAllKill | server.js:137-138 | the all-kill test after a flip; `AllKillIffUniform` shows it holds exactly when one colour fills the board |
| RoomMachine.RoundResult | server.js:186-209 | the result endGame computes for a room; `ResultHasWinner` and `AllKillWonByOwner` characterise it, via `ResolveSpec` |
| RoomMachine.FlipMovesOneCell | server.js:124 | a flip takes one cell from the old colour's count and adds one to the next colour's count; every other count is kept |
| RoomMachine.ResultHasWinner | server.js:196-203 | in any room the result names a player between 1 and the roster size, never `'tie'` |
| RoomMachine.AllKillWonByOwner | server.js:137-148 | an all-kill in a started room is won by the player whose colour fills the board |
| RoomMachine.AppendOther | server.js:47-87 | emitting an event other than `gameStarted` or `gameOver` changes no room's round mark |
| RoomMachine.AppendStarted | server.js:110 | `gameStarted` marks its room as running and leaves every other room's mark |
| RoomMachine.AppendGameOver | server.js:215-221 | `gameOver` is allowed only while its room is marked running, and then marks it ended |
| RoomMachine.WellRoundedPrefix | server.js:162-224 | every prefix of a well-rounded log is well-rounded |
| RoomMachine.StartedAfter | server.js:108-117 | a room marked running has a `gameStarted` after each of its earlier `gameOver`s |
| RoomMachine.MarkBeforeGameOver | server.js:171-178 | in a well-rounded log every `gameOver` comes while its room is marked running |
| RoomMachine.GameOversSeparated | server.js:171-178 | two `gameOver`s for one room always have a `gameStarted` between them, so each round has at most one result |
| RoomMachine.Without | server.js:261 | deleting a code removes exactly that code from the order and keeps the order free of duplicates |
| RoomMachine.FirstRoomWith | server.js:253-263 | the room the disconnect scan deletes; characterised by `FirstRoomWithIsFirst` |
| RoomMachine.FirstRoomWithIsFirst | server.js:253-263 | the scan finds nothing exactly when no room holds the socket, and otherwise the first room in order that does |
| RoomMachine.CoherentLog | server.js:61-87 | logging events other than round events keeps the registry invariant |
| RoomMachine.CoherentStore | server.js:36 | storing a valid record (new codes join the end of the order) keeps the registry invariant |
| RoomMachine.CoherentStart | server.js:108-110 | starting a stored room and logging `gameStarted` keeps the registry invariant |
| RoomMachine.CoherentEnd | server.js:177-221 | ending a running room and logging its `gameOver` keeps the registry invariant |
| RoomMachine.CoherentRemove | server.js:261 | deleting a room and its code from the order keeps the registry invariant |
| Server.Registry.constructor | server.js:8 | the registry starts empty and valid |
| Server.Registry.CreateRoom | server.js:31-55 | stores a record with the creator alone and a fresh even board under the code, replacing any record there; a new code joins the end of the order; `roomCreated` goes to the creator as player 1 |
| Server.Registry.JoinRoom | server.js:57-88 | an unknown code or a full room gets an error and changes nothing else; otherwise the joiner is appended with zero clicks, gets player number `old length + 1` (between 2 and `maxPlayers`), and `roomJoined` and `playerCountUpdate` are sent |
| Server.Registry.StartGame | server.js:90-117 | errors for an unknown code, then a roster that is not full, then a round that has started, each changing nothing else; otherwise the round runs, the timer is armed, and `gameStarted` is sent |
| Server.Registry.FlipCell | server.js:119-150 | nothing happens unless the room's round runs; otherwise exactly the flip is applied and `boardUpdate` is sent; if a colour then fills the board, the timer is cleared and the round ends as an all-kill with its result |
| Server.Registry.EndGame | server.js:162-224 | an unknown code or an ended round is a no-op, so a second call does nothing; otherwise the round ends, the timer is cleared, and exactly one `gameOver` with the computed result is sent |
| Server.Registry.TimerFires | server.js:114-116 | a pending timeout ends its round as a normal win |
| Server.Registry.Rematch | server.js:226-248 | an unknown code is a no-op; otherwise the room gets a fresh even board and zeroed clicks, goes back to before the start with the same roster and capacity, and `rematchStarted` is sent |
| Server.Registry.Disconnect | server.js:250-266 | deletes exactly the first room in insertion order whose roster holds the socket, sends `opponentLeft` only if its round had not ended, and leaves every other room untouched |

## Left out

- Express, static file serving, `http.listen` and the `PORT` setting
  (server.js:1-6, 269-272) are process setup, not room logic.
- socket.io delivery (`io.on`, `socket.on`, `socket.join`, room and
  per-socket `emit`) is a ghost event log. The per-player `gameOver` sends
  and the extra room-wide send (server.js:215-221) are one event, because
  they carry one decision.
- `console.log` calls are not modelled.
- Generating the room code from `Math.random` (server.js:32) is not
  modelled; the code is a parameter. The `maxPlayers = 2` default of
  `createRoom` is not modelled either; the capacity is a parameter.
- The shuffle's random index (server.js:21) is a nondeterministic choice.
  Its uniformity, and so the uniform distribution of boards, is not
  modelled.
- `setTimeout` / `clearTimeout` timing is not modelled. A pending timer
  is the flag `timerArmed`, and it fires only through `TimerFires`.
- When `createRoom` overwrites a room whose timer is pending, the old
  timeout would still fire `endGame` on the new record. This stale timer
  is not modelled: the new record has no timer armed.
- Room records are values in the `rooms` map, not shared objects. Each
  in-place update through the handler's `room` alias is modelled as
  storing the updated record under its code, which is all the single
  threaded handlers can observe.
- Server.Registry.FlipCell: requires `index` in `[0, 36)` and the flipper in
  the roster while the round runs. Out-of-range writes to the JavaScript
  array and `NaN` click counts are not modelled.
- Server.Registry.CreateRoom: requires a capacity dividing 36, because for
  other capacities `createInitialBoard` builds a board whose length is not 36.
- Board.CreateInitialBoard: requires a capacity dividing 36. For any other
  capacity the inner push loop runs to a fractional bound, so each colour
  gets the rounded-up quotient of cells and the board is not 36 cells long
  (40 cells for capacity 5). That board is not modelled.
- Server.Registry.EndGame: requires that a stored room whose round has not
  ended is running, and that every other running room has its timer
  pending. Both callers (the all-kill branch and the timeout) guarantee
  this.
- Server.Registry.TimerFires: requires the timer to be pending, because a
  cleared timeout never runs.
