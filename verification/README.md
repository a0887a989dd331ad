# Session layer of a two-player chess server, in Dafny

This project models the session-coordination core of a small real-time chess
site. The server side has three parts:

- a **lobby** holds three things:
  - a matchmaking queue with toggle semantics: asking twice cancels, and the earlier of two waiting players plays white;
  - a registry from socket connection id to the game that id plays, where both players' ids point at one shared game object;
  - a global chat buffer of at most 20 messages;
- a **game** tracks whose turn it is. Its moves are vetted by the chess engine;
- an **event dispatcher** turns every inbound socket event into a change of lobby state and a list of outbound notices. A daily job empties the registry.

On the client side, the project models the two `Timer` components. Both share
`formatTime`, the millisecond-to-`m:ss` display, but they count down differently:

- the game client charges a per-player budget spell by spell and flags once;
- the web front end counts to a deadline fixed at mount and flags on every tick past it.

Modules, one file each:

| module | file | models |
|---|---|---|
| `Common` | common.dfy | ids, users, chat messages, sides |
| `Game` | game.dfy | `Game`: constructor, `playerCanMove`, `move`, `getOtherId`; turn alternation |
| `Lobby` | lobby.dfy | `Lobby`: constructor, `createGame`, `deleteGame`, `queueUser`, `addChat` |
| `Socket` | socket.dfy | every `socket.on` handler and the daily sweep, as pure steps |
| `TimeFormat` | time_format.dfy | `formatTime` with JavaScript integer semantics |
| `ClientTimer` | client_timer.dfy | the budget countdown of the game client's `Timer` |
| `DeadlineTimer` | deadline_timer.dfy | the fixed-deadline countdown of the front end's `Timer` |

Modelling choices:

- **Shared game object.** In JavaScript, the two registry entries of a game hold the same `Game` object, so a move through one id is seen through the other. `Lobby.games` therefore maps an id to a reference, and `Lobby.heap` maps references to games.
- **Chess engine.** chess.js is a parameter `Engine = (Fen, ChessMove) -> Option<Fen>`. `None` stands for `chess.move` throwing. A position is identified with its FEN string.
- **Handlers.** A handler is a function from (lobby, sender, event) to `Handled(lobby', outbox)`, where the outbox is a list of (recipient id, outbound event) pairs.
- **Missing games.** Most handlers read `lobby.games[id]` and use it unchecked. `Lobby.GameOf` is that read, with `None` for `undefined`. When the entry is missing, the handler throws a TypeError and the step yields `TypeError`, which carries no lobby. Every game-scoped handler throws before changing or sending anything. 'find-game' is different: it can throw only after `queueUser` has already changed the lobby, and the model's `TypeError` drops that change. That path needs two players already waiting, which `Lobby.QueueNeverHoldsTwo` rules out.
- **Fan-out.** `io.to(a).to(b).emit(e)` delivers once per distinct room. When `a == b`, it reaches that one id once.
- **Time.** The current time is a parameter of every clock step. Milliseconds are exact integers.
- **Timer display.** Each timer's `time` state only ever holds `formatTime` of some number of milliseconds. The literals "5:00" and "0:00" are `formatTime(300000)` and `formatTime(0)`, as `TimeFormat.FormatInitialBudget` and `TimeFormat.FormatZero` show. So each timer keeps that number, `shown`, and its `Time` function formats it.

## Model

| member | source | states |
|---|---|---|
| `Common.Flip` | src/server/src/game.ts:36 | the turn after a flip is the other side |
| `Game.NewGame` | src/server/src/game.ts:17-24 | player1 is white, player2 black, white to move, start position, 300000 ms for each side |
| `Game.PlayerCanMove` | src/server/src/game.ts:26-30 | with distinct players, true exactly when the id owns the side to move; only a player can ever move |
| `Game.Move` | src/server/src/game.ts:32-41 | a player who may not move changes nothing; the turn flips exactly when the player may move and the engine accepts, and then the position is the engine's; a rejected move changes nothing; players and budgets never change |
| `Game.GetOtherId` | src/server/src/game.ts:43-45 | the answer is always one of the two players; with distinct players, a player's answer is the other player, on the opposite side |
| `Game.OtherIdInvolution` | src/server/src/game.ts:43-45 | with distinct players, taking the opponent twice returns the player |
| `Game.AcceptedMoveHandsOver` | src/server/src/game.ts:26-41 | after an accepted move the mover may not move and the opponent may |
| `Game.Accepted` | src/server/src/game.ts:32-41 | counts the submitted moves whose sender may move and whose move the engine takes, each judged in the game it was played in; the count is at most the number submitted, and a count of zero leaves the game unchanged |
| `Game.TurnParity` | src/server/src/game.ts:32-41 | after any sequence of submitted moves, the turn has flipped once for each move the engine accepted from a player who might move |
| `Game.NewGameTurnParity` | src/server/src/game.ts:22-36 | in a fresh game it is white's turn exactly when an even number of moves was accepted |
| `Game.PlayKeepsPlayers` | src/server/src/game.ts:32-41 | no sequence of moves touches the players or the two time budgets |
| `Lobby.Empty` | src/server/src/lobby.ts:17-21 | the new lobby has no registry entry, no queue, no chat, and satisfies the lobby invariant |
| `Lobby.CreateGame` | src/server/src/lobby.ts:23-27 | both ids map to the same fresh game, `NewGame(white, black)`; the key set grows by exactly the two ids; every other entry, the queue and the chat are unchanged |
| `Lobby.CreateGameKeepsPaired` | src/server/src/lobby.ts:23-27 | registering two distinct players who are not in a game keeps every registry entry paired with a live game |
| `Lobby.DeleteGame` | src/server/src/lobby.ts:29-32 | exactly the two keys are removed; the other entries and their games are untouched |
| `Lobby.DeleteGameIdempotent` | src/server/src/lobby.ts:29-32 | deleting the same pair twice equals deleting it once |
| `Lobby.DeleteUndoesCreate` | src/server/src/lobby.ts:23-32 | deleting a freshly created pair restores the registry |
| `Lobby.RemoveId` | src/server/src/lobby.ts:36 | the filter keeps exactly the entries of other ids; it shrinks when the id was queued and is the identity otherwise |
| `Lobby.RemoveIdSingle` | src/server/src/lobby.ts:36 | on one entry, the filter drops it exactly when it has the id |
| `Lobby.RemoveIdAppend` | src/server/src/lobby.ts:36 | filtering a concatenation is concatenating the filtered parts, so the kept entries stay in their order |
| `Lobby.RemoveIdKeepsUnique` | src/server/src/lobby.ts:36 | filtering keeps a queue free of repeated ids |
| `Lobby.Entry` | src/server/src/lobby.ts:39 | the queued entry carries the `id` argument, overriding `user.id`, and the user's name and picture |
| `Lobby.QueueUser` | src/server/src/lobby.ts:34-47 | 'cancelled' exactly when the id was queued, and then every entry of it goes and the registry is untouched; 'pending' only from an empty queue; 'found' dequeues the two oldest in order, the first as white, and registers both ids to the one new game; on a sound heap every other id keeps its game |
| `Lobby.PendingThenCancelled` | src/server/src/lobby.ts:35-46 | from an empty queue the same id gets 'pending' then 'cancelled', and the queue ends empty with the registry unchanged |
| `Lobby.PairedIdsDistinct` | src/server/src/lobby.ts:35-43 | on a queue without repeats, a pairing joins two different ids |
| `Lobby.QueueUserKeepsIdsUnique` | src/server/src/lobby.ts:34-47 | no id ever waits twice |
| `Lobby.QueueUserKeepsQueueShort` | src/server/src/lobby.ts:39-46 | one request keeps at most one player waiting |
| `Lobby.QueueNeverHoldsTwo` | src/server/src/lobby.ts:39-46 | from at most one waiting player, no sequence of requests makes two wait |
| `Lobby.QueueUserKeepsValid` | src/server/src/lobby.ts:34-47 | a request from an id that is not in a game keeps the lobby invariant: registry paired, at most one waiting player who is not in a game, chat bounded |
| `Lobby.Latest` | src/server/src/lobby.ts:49-54 | the newest `n` elements of a sequence, in order |
| `Lobby.AddChat` | src/server/src/lobby.ts:49-54 | the new chat is last; when the buffer was full the oldest is evicted and the length stays, otherwise all are kept |
| `Lobby.AddChatIsLatest` | src/server/src/lobby.ts:49-54 | one `addChat` on a buffer within capacity keeps the newest 20 of the old buffer plus the new message |
| `Lobby.LatestAbsorbs` | src/server/src/lobby.ts:49-54 | trimming before appending loses nothing the final trim would keep |
| `Lobby.ChatBufferKeepsLatest` | src/server/src/lobby.ts:49-54 | after any sequence of `addChat` calls the buffer holds exactly the newest 20 messages ever posted, never more |
| `Socket.ToBoth` | src/server/src/socket.ts:94 | `io.to(a).to(b)` reaches exactly the ids a and b, once each, with the same event |
| `Socket.FindIndex` | src/server/src/socket.ts:77 | -1 exactly when the id is not queued, otherwise its first position |
| `Socket.SpliceIsRemoveId` | src/server/src/socket.ts:77-80 | on a queue without repeated ids, splicing out the first match equals filtering the id out |
| `Socket.Forfeit` | src/server/src/socket.ts:119-124 | only the opponent is told 'opponent-resigned'; both registry entries go; every other id keeps its game; the game store, queue and chat stay |
| `Socket.OnFlagged` | src/server/src/socket.ts:62-68 | nothing changes; the opponent gets 'opponent-flagged' when the sender has a game, and nobody is told otherwise |
| `Socket.OnDisconnect` | src/server/src/socket.ts:69-81 | with a game, only the opponent is told, both entries go, every other id keeps its game and the queue is untouched; otherwise nothing is sent, the registry and game store stay, and the sender's queue entry is removed if present |
| `Socket.OnGlobalChat` | src/server/src/socket.ts:84-87 | the chat is echoed to the sender alone; on a buffer within capacity the new buffer is the newest 20 of the old one plus the chat; registry, game store and queue stay |
| `Socket.OnFindGame` | src/server/src/socket.ts:88-102 | the lobby is `queueUser`'s; 'cancelled' and 'pending' go to the requester only; a pairing sends 'game-found' with the white and black players to both paired ids |
| `Socket.OnGameRequested` | src/server/src/socket.ts:107-112 | throws exactly when the id has no game; otherwise one reply to the sender, side white iff the id is white, the opponent is the other player of that game, and nothing changes |
| `Socket.OnMove` | src/server/src/socket.ts:113-118 | throws exactly when the id has no game; otherwise the shared game becomes `Game.Move`'s result, visible through both ids, and both mover and opponent get 'update-board' whether or not the move was accepted; on a valid lobby every other id keeps its game |
| `Socket.OnResign` | src/server/src/socket.ts:119-124 | throws exactly when the id has no game; otherwise the opponent alone gets 'opponent-resigned', both entries are deleted, every other id keeps its game, and the game store, queue and chat stay |
| `Socket.OnGameChat` | src/server/src/socket.ts:125-129 | throws exactly when the id has no game; otherwise the chat goes to both the id and its opponent and nothing changes |
| `Socket.OnNegotiate` | src/server/src/socket.ts:138-186 | throws exactly when the id has no game; otherwise exactly one notice of the same offer and reply goes to the opponent and nothing changes |
| `Socket.Sweep` | src/server/src/socket.ts:52-56 | the registry becomes empty, no id finds a game, queue and chat stay, and the lobby invariant is kept |
| `Socket.ResignAndLeaveAgree` | src/server/src/socket.ts:119-135 | 'resign' and 'leave' have the same effect |
| `Socket.Dispatch` | src/server/src/socket.ts:61-187 | only 'find-game' and game-scoped events can throw, and a game-scoped one throws exactly when its id has no game |
| `Socket.DispatchFrames` | src/server/src/socket.ts:61-187 | 'flagged', 'game-requested', 'game-chat' and the offers change nothing; only 'global-chat' touches the chat, and only 'find-game' and 'disconnect' touch the queue |
| `Socket.DispatchRoutes` | src/server/src/socket.ts:61-187 | each event's notices: 'move' sends the new board to the mover and the opponent; 'resign', 'leave' and a disconnect in a game tell the opponent alone that the player resigned; 'flagged' tells the opponent alone, or nobody without a game; the offers reach the opponent alone with the same offer and reply; 'game-chat' reaches both ids; 'game-requested' and 'global-chat' answer the sender; 'find-game' answers the requester or tells both paired ids of their game |
| `Socket.ThrowsOnlyWithoutGame` | src/server/src/socket.ts:62-186 | on a valid lobby a handler throws exactly when a game-scoped event names an id with no game |
| `Socket.ForfeitKeepsValid` | src/server/src/socket.ts:119-124 | ending a game keeps the lobby invariant |
| `Socket.MoveKeepsValid` | src/server/src/socket.ts:113-118 | a move keeps the lobby invariant |
| `Socket.DisconnectKeepsValid` | src/server/src/socket.ts:69-81 | a disconnect keeps the lobby invariant |
| `Socket.DispatchKeepsValid` | src/server/src/socket.ts:61-187 | every handler keeps the lobby invariant, provided no player already in a game asks for another |
| `Socket.PairingScenario` | src/server/src/socket.ts:88-102 | two players from an empty lobby: the first is told to wait; then both get 'game-found' with the first as white, both ids share the new game, and the queue is empty |
| `Socket.StaleEventsThrow` | src/server/src/socket.ts:69-81 | after a mid-game disconnect, any late game-scoped event naming either player throws |
| `Socket.SweepThenGameEventsThrow` | src/server/src/socket.ts:52-56 | after the daily sweep every game-scoped event throws |
| `Socket.RequeueBreaksPairing` | src/server/src/socket.ts:88-95 | a player in a game who asks for another is paired again, and the old opponent's entry then names a game the player's entry does not: the invariant fails |
| `Socket.FreshFindGameKeepsValid` | src/server/src/socket.ts:88-101 | corrected 'find-game' that first drops the requester's stale pair: it never throws on a valid lobby, keeps the lobby invariant, and equals the source's handler for a requester without a game |
| `TimeFormat.NatToString` | client/src/components/Timer.tsx:12 | the numeral is all digits, with no leading zero: it starts with '0' only for 0; one digit exactly below 10 and two from 10 to 99 |
| `TimeFormat.NatToStringRoundTrip` | client/src/components/Timer.tsx:12 | reading a printed number back gives the number |
| `TimeFormat.IntToString` | client/src/components/Timer.tsx:12 | a non-negative number prints as a numeral that reads back as the number and starts with '0' only for 0; a negative one as a minus sign followed by a numeral without leading zero that reads back as its magnitude |
| `TimeFormat.JsRem` | client/src/components/Timer.tsx:9 | the remainder takes the sign of the dividend and is below the divisor in size; it is Dafny's remainder for a non-negative dividend, and the dividend minus it is a multiple of the divisor |
| `TimeFormat.PadSeconds` | client/src/components/Timer.tsx:12 | seconds from 0 to 59 give two digits that read back as the seconds, with a leading '0' exactly below ten; any value below ten, negative ones included, gets the '0' in front |
| `TimeFormat.ParseJoin` | client/src/components/Timer.tsx:12 | a numeral, a colon and a two-digit field read back as the two numbers |
| `TimeFormat.FormatTime` | src/components/Timer.tsx:4-11 | a negative time displays with a leading minus sign |
| `TimeFormat.FormatTimeRoundTrip` | client/src/components/Timer.tsx:6-13 | for ms >= 0 the display parses as `m:ss` with m = ms / 60000 and ss = (ms / 1000) % 60; the parsed pair has seconds below 60 and together makes up the whole seconds of ms |
| `TimeFormat.SecondsTwoDigits` | src/components/Timer.tsx:4-11 | for ms >= 0 the seconds are always two digits after the colon, with a leading '0' exactly below ten |
| `TimeFormat.FormatInitialBudget` | client/src/components/Timer.tsx:16-17 | 300000 ms displays as "5:00", the initial display |
| `TimeFormat.FormatZero` | client/src/components/Timer.tsx:28 | 0 ms displays as "0:00" |
| `TimeFormat.FormatJustExpired` | src/components/Timer.tsx:4-11 | -1 ms displays as "-1:0-1" |
| `ClientTimer.Mount` | client/src/components/Timer.tsx:16-17 | five minutes in the budget, the budget on display, no spell running |
| `ClientTimer.MountShowsFiveMinutes` | client/src/components/Timer.tsx:16 | the initial display is "5:00" |
| `ClientTimer.Activate` | client/src/components/Timer.tsx:19-21 | a spell starts at `now` with the current budget as its last remainder |
| `ClientTimer.Tick` | client/src/components/Timer.tsx:22-35 | remaining = budget - elapsed; a positive remainder is displayed; otherwise 'flagged' is emitted, zero shown, the flag loss is recorded for the right winner, and the interval stops |
| `ClientTimer.TickDisplay` | client/src/components/Timer.tsx:25-28 | a running tick shows the formatted remainder while time is left, and "0:00" once it is up |
| `ClientTimer.Deactivate` | client/src/components/Timer.tsx:36-39 | the last computed remainder becomes the budget and the spell ends |
| `ClientTimer.TicksKeepBudget` | client/src/components/Timer.tsx:22-35 | ticks never change the budget or the start of the spell, nor start or end a spell |
| `ClientTimer.StoppedTicksAreIdle` | client/src/components/Timer.tsx:33 | once the interval is cleared, ticks do nothing |
| `ClientTimer.FlagAtMostOnce` | client/src/components/Timer.tsx:26-33 | within a spell 'flagged' is emitted at most once |
| `ClientTimer.TicksRecordLastRemainder` | client/src/components/Timer.tsx:23-24 | ticks that leave time on the clock record the remainder of the last one |
| `ClientTimer.SpellChargesUpToLastTick` | client/src/components/Timer.tsx:20-37 | a spell charges the budget with the time from its start to its last tick |
| `ClientTimer.UntickedSpellIsFree` | client/src/components/Timer.tsx:21-37 | a spell ended before its first tick leaves the budget unchanged, however long it lasted |
| `ClientTimer.DeactivateAt` | client/src/components/Timer.tsx:36-39 | corrected cleanup: the whole time since the spell started is charged |
| `ClientTimer.SpellChargesItsDuration` | client/src/components/Timer.tsx:20-39 | with the corrected cleanup a spell costs exactly its duration, whatever ticks happened |
| `DeadlineTimer.Mount` | src/components/Timer.tsx:14-15 | the deadline is five minutes after the mount, and the display shows the time to it |
| `DeadlineTimer.MountShowsFiveMinutes` | src/components/Timer.tsx:14 | the initial display is "5:00" |
| `DeadlineTimer.SetActive` | src/components/Timer.tsx:16-27 | becoming active or inactive moves neither the deadline nor the display |
| `DeadlineTimer.Tick` | src/components/Timer.tsx:18-22 | an active tick shows the time to the deadline and emits 'flagged' exactly when the deadline is reached |
| `DeadlineTimer.DeadlineIsFixed` | src/components/Timer.tsx:15-25 | no sequence of pauses and ticks moves the deadline |
| `DeadlineTimer.TickIgnoresPauses` | src/components/Timer.tsx:15-25 | whatever happened since the mount, an active tick shows the time left to mount + 5 minutes |
| `DeadlineTimer.FlagOnEveryExpiredTick` | src/components/Timer.tsx:18-22 | 'flagged' is emitted once for every active tick at or after the deadline |
| `DeadlineTimer.ExpiredTicksIgnoresDisplay` | src/components/Timer.tsx:18-22 | the count of expired ticks depends only on the deadline and on activity |
| `DeadlineTimer.ExpiredDisplayGarbled` | src/components/Timer.tsx:18-22 | one millisecond past the deadline the display reads "-1:0-1" |
| `DeadlineTimer.TickClamped` | src/components/Timer.tsx:18-22 | corrected tick: same flag decision and deadline, the same timer while time is left, and zero shown after |
| `DeadlineTimer.ClampedDisplayWellFormed` | src/components/Timer.tsx:18-22 | with the clamp every tick shows a well-formed `m:ss`, and "0:00" once the deadline has passed |

## Left out

- React rendering, JSX and every component other than the two timers. These are user interface, not session logic.
- socket.io delivery, the HTTP server and the client sockets. This is transport; notices are an outbox list.
- chess.js legality and FEN generation. This is a foreign library, taken as the `Engine` parameter.
- The node-schedule cron timing. Only the sweep's effect on state is modelled.
- `Date`, `setInterval`, `useRef` and `useState` mechanics. The current time is a parameter, and the interval's 900 ms and 500 ms periods are not modelled.
- Concurrency. Node runs each handler to completion, so each handler is one atomic step.
- Registry keys that a plain JavaScript object answers through its prototype chain, such as `"__proto__"` or `"toString"`. The registry is a map.
- Session outcomes and running clocks on the server. `Game` holds two time budgets that nothing ever decrements, and the model keeps them constant.
- Behaviour of the code worth knowing:
  - A game-scoped event naming an id with no game throws (src/server/src/socket.ts:108-184); there is no no-game reply, so a second 'resign' after a game ended throws.
  - 'game-chat' goes to both the sender's id and the opponent (src/server/src/socket.ts:128).
  - 'resign', 'leave' and 'disconnect' tell the opponent only (src/server/src/socket.ts:73, 122, 133).
  - 'move' sends 'update-board' even for a move that was not accepted (src/server/src/socket.ts:115-117).
  - A player who disconnects mid-game keeps any queue entry (src/server/src/socket.ts:71-76).
  - Neither 'flagged' (src/server/src/socket.ts:62-68) nor a checkmate removes a game from the registry, so both ids of a game that ended that way stay registered until a 'resign', a 'disconnect' or the daily sweep. The next 'find-game' from either player therefore comes from an id already in a game, the case `Socket.DispatchKeepsValid` excludes. Once that player is paired again, a 'resign' from the old opponent (src/server/src/socket.ts:119-123) tells the player "opponent-resigned" and deletes the player's entry for the new game.
- Milliseconds are exact integers. JavaScript numbers are doubles, but `getTime` values are integral and far below 2^53, so every sum and difference the timers form is exact there too.
- Socket.DispatchKeepsValid: requires that a 'find-game' request not come from an id already in a game, because the source does not guard against it and `Socket.RequeueBreaksPairing` shows the invariant then fails. This is the ordinary path after a game ends by flag or checkmate (see "Behaviour of the code worth knowing"); `Socket.FreshFindGameKeepsValid` proves the corrected handler keeps the invariant without the proviso.
- Socket.OnFindGame: the outbox of a pairing is stated for the queue shapes the lobby invariant allows (at most one waiting player). On a longer queue the game is read back from the registry as the source does, and the contract then says only that the lobby is `queueUser`'s.
- Socket.OnDisconnect: the remaining queue equals the filtered queue only when no id waits twice. That always holds under `Lobby.QueueUserKeepsIdsUnique`. Otherwise the contract states only the length.

## Findings

| source | as written | input that shows it | evidently intended | confidence | as-written member | corrected member |
|---|---|---|---|---|---|---|
| src/components/Timer.tsx:18-22 | each tick displays `formatTime(deadline - now)` even after the deadline, and JavaScript's truncating `%` together with `'0' + seconds` turns a negative remainder into a malformed string | a tick 1 ms after the deadline displays "-1:0-1" | display "0:00" once time is up | not executed | `DeadlineTimer.ExpiredDisplayGarbled` | `DeadlineTimer.ClampedDisplayWellFormed` |
| src/server/src/socket.ts:88-95 | 'find-game' queues an id that is still registered to a finished game, and the pairing overwrites only that id's entry | a and b play a game that ends by flag, which leaves both registered; a asks for a game and c joins: a and c share a new game while b's entry still names the old one with a | drop the requester's stale pair before queueing | not executed | `Socket.RequeueBreaksPairing` | `Socket.FreshFindGameKeepsValid` |
| client/src/components/Timer.tsx:21-37 | the cleanup stores the last remainder a tick computed, which is the starting budget when no tick has fired yet | a spell that ends before the first 900 ms tick leaves the budget as it was, however long the spell lasted | charge the whole time since the spell started | not executed | `ClientTimer.UntickedSpellIsFree` | `ClientTimer.SpellChargesItsDuration` |
