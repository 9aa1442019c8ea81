# Cube builder: a verified model of the session server and the client stores

The cube builder is a multiplayer voxel game. One Node server (`server.ts`)
holds the authoritative session: the players keyed by their unique names,
the shared list of placed cubes with a position index, the game phase
(LOBBY, ACTIVE, FINISHED) and a countdown timer. Clients send `player:join`,
`player:move`, `cube:add`, `cube:remove` and `server:command` events and
broadcasts go back to them. Each client browser keeps stores that mirror
this state: `PlayerState.ts` (the roster and the local player),
`GameStateStore.ts` (the phase and the timer, with its `MM:SS` text),
`GameState.ts` (score, level, pause), `CubeState.ts` (a deduplicating cube
list) and `colours.ts` (the colour of a player, from a hash of its id).

The Dafny project models that core:

- `protocol.dfy` holds the values that cross the wire: positions, players, cubes, phases, timer records and the outbound messages. A message is paired with its audience: the sender, the others, or everyone.
- `server.dfy` holds the server. `SessionServer` is a class whose fields are the server's module-level state. Each socket handler is a method that returns the events it emits, in order. The methods keep one invariant, `Consistent`:
  - the position index mirrors the cube list;
  - the list holds at most `MAX_CUBES` cubes;
  - the two name directories agree with the players;
  - a countdown runs only in an ACTIVE game, with end = start + duration.
- The commands (`reset`, `startgame`, `timer`, `memory`, `help`) are specified by pure functions (`ResetSpec`, `StartTimerSpec`, `ProcessCommandSpec`, ...). The methods are proved equal to them.
- `command_text.dfy` holds the text handling of a command: `trim`, `toLowerCase`, `split(/\s+/)`, `parseFloat` and the printing of a number into a message.
- `decimal.dfy` holds the decimal text of natural numbers, and `padStart(2, "0")`.
- `timer_sync.dfy` joins the server to the client store: it follows a `timer:update` from the server's start or tick into the time left the client shows.
- `player_state.dfy`, `game_state_store.dfy`, `game_state.dfy`, `cube_state.dfy` and `colours.dfy` hold the client stores. Socket listeners are pure reducers. A store whose fields its actions assign is a class.

Clock readings (`Date.now()`) are a `now` parameter in milliseconds. The
scheduled interval is the boolean `timerRunning`. One firing of it is the
method `Tick`. `process.memoryUsage().heapUsed` is a parameter.

Behaviour of the code that the model keeps, where a reader might expect otherwise:

- On disconnect, the player and its name mapping are removed only when the socket still owns the name. Under `Consistent` that is always the case.
- A `cube:add` on an occupied position, or under another player's name, is dropped without a reply. So is a `cube:remove` of a cube the sender does not own. Only the phase check answers with `server:command:error`.
- `timer 1.5` is accepted. A fractional number of minutes is an exact decimal: a sign, a digit count and a power-of-ten exponent. The reply prints it back in a form that `parseFloat` reads as the same minutes.
- When a countdown reaches zero, `game:state:change` (FINISHED) is broadcast before `timer:end`.
- `startTimer` clears a pending interval before scheduling a new one. That branch cannot run: a running interval implies an ACTIVE game, and `startTimer` refuses an ACTIVE game first.
- Over one in-game rename, the old name stays held. Suppose a socket joins again under a new name, with the old name still bound to it. The old name then keeps its `nameToSocketId` entry and its player record: the socket's later disconnect only releases the new name. `Join` states this exactly: only the final name's entries change.

## Model

| member | source | states |
|---|---|---|
| Decimal.NatToString | server.ts:599-603 | the decimal text of a natural number: non-empty, all digits, no leading zero except for 0 itself |
| Decimal.NatToStringRoundTrip | server.ts:599-603 | reading the digits back gives the number again |
| Decimal.NatToStringInjective | server.ts:165-168 | different numbers have different texts, so the suffixed names differ |
| Decimal.Pad2 | src/game/state/GameStateStore.ts:162-164 | `padStart(2, "0")`: at least two characters, the original text as a suffix, zeros in front |
| Decimal.Pad2Value | src/game/state/GameStateStore.ts:162-164 | padding with zeros keeps the value the digits denote |
| CommandText.TrimStart | server.ts:421 | the result is a suffix of the text with no white space at its head, and only white space was dropped |
| CommandText.TrimEnd | server.ts:421 | the result is a prefix of the text with no white space at its end, and only white space was dropped |
| CommandText.ToLower | server.ts:421 | same length, no upper-case letter left, each character lowered in place |
| CommandText.NonSpaceRun | server.ts:421 | the longest prefix free of white space |
| CommandText.SplitOnSpaces | server.ts:421 | at least one piece, the first being the leading run of non-space characters (empty when the text starts with white space) |
| CommandText.SplitOnSpacesSeparated | server.ts:421 | every text is its pieces with a non-empty run of white space between each two of them |
| CommandText.SeparatedIsSplit | server.ts:421 | conversely, a text made of non-empty space-free pieces with runs of white space between them splits into exactly those pieces |
| CommandText.CommandPartsSpec | server.ts:421-422 | the first piece of a command is the leading word of the lowered trimmed command, and the pieces, separated by runs of white space, make up that text. The pieces have no white space, and together they are the text without its white space. A blank command gives the single piece "" (so `cmd` is ""), and a non-blank one has no empty piece |
| CommandText.CommandPartsUnique | server.ts:421 | any non-empty space-free words that, separated by runs of white space, make up the lowered trimmed command are exactly its pieces |
| CommandText.CommandPartsOfPaddedWord | server.ts:421-422 | one word with only white space around it gives that word, lowered, as the only piece |
| CommandText.CommandPartsNoUpper | server.ts:421 | no piece holds an upper-case letter |
| CommandText.CommandPartsOfTwoWords | server.ts:421-422 | two lower-case words joined by a space split back into exactly those two words |
| CommandText.ParseFloat | server.ts:443 | blank text, or text whose first non-space character cannot start a number, is NaN (None); a number read is negative exactly when the text starts with `-` |
| CommandText.ParseUnsigned | server.ts:443 | an empty body, or one starting with neither a digit nor a point, is NaN; a number read has the sign given |
| CommandText.ParseFloatOfDigits | server.ts:443 | `parseFloat` of a run of digits is the number they denote |
| CommandText.ParseFloatOfNat | server.ts:443 | `parseFloat` reads the decimal text of n back as n |
| CommandText.Normalize | server.ts:564 | moving trailing zeros into the exponent keeps the sign and zero-ness, and leaves no trailing zero |
| CommandText.NormalizeKeepsValue | server.ts:564 | normalizing a number does not change its value |
| CommandText.UnsignedText | server.ts:564 | a non-zero magnitude prints as a text that starts with a digit and is not `0` |
| CommandText.UnsignedTextReadsBack | server.ts:564 | the printed magnitude holds no upper-case letter and reads back, with the number's sign, as a number of the same value |
| CommandText.NumberToString | server.ts:564 | the text is not empty; it is `0` exactly for zero, and starts with `-` exactly for a non-zero negative number |
| CommandText.NumberToStringReadsBack | server.ts:564 | the printed text of every number, whole or fractional, holds no upper-case letter and `parseFloat` reads it back as a number of the same value |
| CommandText.NumberToStringWhole | server.ts:564 | a positive whole number of minutes is printed as its plain decimal text |
| Server.Candidate | server.ts:157-170 | the first name tried is the name itself; the k-th after it is the name followed by digits that read back as k |
| Server.CandidateInjective | server.ts:165-168 | the names tried (name, name1, name2, ...) are pairwise different |
| Server.MintName | server.ts:157-170 | the suffix loop returns a name not taken, equal to the name tried at its suffix, with every earlier candidate taken |
| Server.MintedFromUnique | server.ts:157-170 | the name the loop chooses is determined by the taken names |
| Server.FirstCollisionGetsSuffixOne | server.ts:157-170 | a second player asking for a name held by the only player gets that name followed by 1 |
| Server.IndexMirrorsDistinct | server.ts:136-137 | while the index mirrors the cubes, no two cubes share a position and the index keys are exactly the cube positions |
| Server.IndexMirrorsUnique | server.ts:136-137 | the position index is determined by the cube list |
| Server.AppendKeepsIndex | server.ts:288-291 | appending a cube on a free position and indexing it at the end keeps the index a mirror |
| Server.EvictionKeepsIndex | server.ts:264-285 | dropping the oldest cube, deleting its key and decrementing every other index keeps the index a mirror |
| Server.RemovalKeepsIndex | server.ts:339-349 | splicing out cube k, deleting its key and decrementing the indices above k keeps the index a mirror |
| Server.DecrementAll | server.ts:273-276 | every key is kept and every index is one less |
| Server.DecrementAfter | server.ts:345-349 | every key is kept, and exactly the indices above the removed one are one less |
| Server.StartGameSpec | server.ts:471-489 | success exactly when the game is not yet ACTIVE. Then the phase becomes ACTIVE and everyone is told; otherwise nothing changes. The invariant is kept |
| Server.StartTimerSpec | server.ts:492-566 | success exactly when minutes is a number above 0 and the game is not ACTIVE. Then the phase is ACTIVE, the timer is start = now, duration = minutes times 60000, end = start + duration, and the phase change and timer update go to everyone. Otherwise nothing changes. The invariant is kept |
| Server.TickSpec | server.ts:531-560 | with no countdown nothing happens. At or after the end the game is FINISHED, the timer is cleared and the countdown stopped, broadcasting the phase change and then `timer:end`. Before the end it broadcasts the time left and changes nothing. The invariant is kept |
| Server.ResetSpec | server.ts:569-605 | replies with the number of cubes removed. The cubes and index are emptied, the phase is LOBBY, and the timer is cleared and stopped. Reset, phase and timer-end go to everyone. The invariant is kept |
| Server.ResetMessage | server.ts:600-603 | `Reset `, then digits that read back as the count, then ` cube` (plural unless the count is 1) and ` and returned to lobby.` |
| Server.ResetMessageZero | server.ts:600-603 | the reply for zero cubes is `Reset 0 cubes and returned to lobby.` |
| Server.ResetIsIdempotent | server.ts:569-605 | a second reset leaves the same state and reports 0 cubes |
| Server.HeapMegabytes | server.ts:447-453 | `Math.round` of the heap in mebibytes: within half a mebibyte, halves rounded up |
| Server.ProcessCommandSpec | server.ts:420-468 | a socket without a name is refused with the state unchanged. An unknown command is refused with the state unchanged. A successful command comes from a named socket. The invariant is kept |
| Server.TimerCommandParts | server.ts:421-443 | `timer <n>` splits into "timer" and the digits of n |
| Server.TimerCommandDispatch | server.ts:434-444 | a command whose pieces are "timer" and a word starts the timer with that word parsed |
| Server.TimerStartedMessageReadsBack | server.ts:562-565 | the reply is `Timer started for `, then a number text that `parseFloat` reads back as the minutes, whole or fractional, then ` minute`, plural unless the minutes are 1 |
| Server.TimerStartedMessageWhole | server.ts:564 | for n at least 1 the reply reads `Timer started for n minute`, plural unless n is 1 |
| Server.StartTimerWhole | server.ts:492-566 | starting an n-minute timer outside an ACTIVE game replies with the plain text of n and sets a timer of n times 60000 ms from now |
| Server.TimerCommandWhole | server.ts:420-566 | `timer 0` is refused with the state unchanged. `timer n` for n at least 1, from a named socket outside an ACTIVE game, makes the game ACTIVE with an n-minute timer and says so |
| Server.SessionServer.constructor | server.ts:118-137 | no players, cubes or names; LOBBY, no timer, no countdown; the invariant holds |
| Server.SessionServer.Join | server.ts:155-203 | keeps the requested name on reconnection or when no player has it; otherwise the first free suffixed name is chosen. Exactly the final name's player and the two directory entries change. Events: the player to the others, the full state to the sender, and the rename notice if renamed. A replaced player record belonged to this socket |
| Server.SessionServer.Move | server.ts:206-222 | a named sender with a player takes the new position and rotation, and the others are told; otherwise nothing |
| Server.SessionServer.AddCube | server.ts:225-305 | malformed: nothing. Not ACTIVE: an error to the sender. Wrong name or occupied position: nothing. Otherwise the cube is appended under the sender's name, after evicting the oldest one at capacity (everyone is told), and the others are told of the new cube. Capacity and index are kept |
| Server.SessionServer.RemoveCube | server.ts:308-368 | malformed: nothing. Not ACTIVE: an error to the sender. A cube at the position owned by the sender is spliced out and the others are told; otherwise nothing |
| Server.SessionServer.Disconnect | server.ts:394-416 | a named socket with a player loses its name; the player and name mapping go when it owns the name, and everyone is told. In a consistent state it always owns it |
| Server.SessionServer.StartGame | server.ts:471-489 | the new state, reply and events are those of `StartGameSpec` |
| Server.SessionServer.StartTimer | server.ts:492-566 | the new state, reply and events are those of `StartTimerSpec` |
| Server.SessionServer.Tick | server.ts:531-560 | the new state and events are those of `TickSpec` |
| Server.SessionServer.ResetCubes | server.ts:569-605 | the key-deleting loop empties the index; state, reply and events are those of `ResetSpec` |
| Server.SessionServer.ProcessCommand | server.ts:420-468 | the new state, reply and events are those of `ProcessCommandSpec` |
| Server.SessionServer.HandleCommand | server.ts:371-391 | an absent or empty command gets `Invalid command format` and changes nothing; otherwise the command's broadcasts are followed by its reply to the sender |
| PlayerState.HasPositionChanged | src/game/state/PlayerState.ts:237-240 | true exactly when the positions differ |
| PlayerState.HasRotationChanged | src/game/state/PlayerState.ts:242-245 | true exactly when the rotations differ |
| PlayerState.OnPlayerJoin | src/game/state/PlayerState.ts:60-72 | a known id leaves the roster as it is; a new one is added, with the count one more and equal to the size |
| PlayerState.OnPlayerLeave | src/game/state/PlayerState.ts:75-89 | an unknown id leaves the roster as it is; a known one is removed, nothing else changes and the count follows |
| PlayerState.OnPlayerMove | src/game/state/PlayerState.ts:91-117 | a known player takes the new position and rotation and nothing else changes, whether or not the update was skipped |
| PlayerState.OnStateSync | src/game/state/PlayerState.ts:119-125 | the roster becomes the server's players and the count their number |
| PlayerState.JoinThenLeave | src/game/state/PlayerState.ts:60-89 | joining under a fresh id, then leaving, gives back the roster |
| PlayerState.MovesCommute | src/game/state/PlayerState.ts:91-117 | moves of two different players commute |
| PlayerState.PlayerStore.constructor | src/game/state/PlayerState.ts:43-47 | the empty store, with the count matching |
| PlayerState.PlayerStore.HandlePlayerJoin | src/game/state/PlayerState.ts:60-72 | the roster is `OnPlayerJoin` of the old one; the local fields are unchanged |
| PlayerState.PlayerStore.HandlePlayerLeave | src/game/state/PlayerState.ts:75-89 | the roster is `OnPlayerLeave` of the old one; the local fields are unchanged |
| PlayerState.PlayerStore.HandlePlayerMove | src/game/state/PlayerState.ts:91-117 | the roster is `OnPlayerMove` of the old one; the local fields are unchanged |
| PlayerState.PlayerStore.HandleStateSync | src/game/state/PlayerState.ts:119-125 | the roster is the server's; the local fields are unchanged |
| PlayerState.PlayerStore.HandleConnect | src/game/state/PlayerState.ts:128-136 | a store that knows its name takes the new socket id; nothing else changes |
| PlayerState.PlayerStore.UpdatePosition | src/game/state/PlayerState.ts:156-190 | with a local id the roster is moved exactly as a `player:move` for it would; without one nothing changes |
| PlayerState.PlayerStore.SetLocalPlayer | src/game/state/PlayerState.ts:193-198 | sets the local id and name and nothing else |
| PlayerState.PlayerStore.Cleanup | src/game/state/PlayerState.ts:201-211 | back to the initial store |
| PlayerState.PlayerStore.GetLocalPlayer | src/game/state/PlayerState.ts:214-219 | the local entry exactly when the local id is set and present |
| PlayerState.PlayerStore.GetOtherPlayers | src/game/state/PlayerState.ts:222-227 | exactly the entries whose player id is not the local id, unchanged |
| PlayerState.PlayerStore.GetPlayerNames | src/game/state/PlayerState.ts:230-233 | exactly the names of the players |
| PlayerState.PlayerStore.OthersAndLocalPartition | src/game/state/PlayerState.ts:214-227 | with entries keyed by id, the others and the local player together are the roster, and the local player is never among the others |
| GameStateStore.MergeTimer | src/game/state/GameStateStore.ts:122-129 | each field given in the patch replaces the stored one; each absent field stays |
| GameStateStore.MergeTimerIdempotent | src/game/state/GameStateStore.ts:122-129 | merging a patch twice is merging it once, and the empty patch changes nothing |
| GameStateStore.OnTimerUpdate | src/game/state/GameStateStore.ts:63-76 | the patch is merged; the time left is the patch's if truthy, else the end time minus now if that is truthy, else null |
| GameStateStore.OnStateSyncTimer | src/game/state/GameStateStore.ts:96-106 | the server's three fields replace the client's, and the time left is end minus now when the end is truthy, else null |
| GameStateStore.WholeMinutes | src/game/state/GameStateStore.ts:159 | the whole minutes below the time |
| GameStateStore.WholeSeconds | src/game/state/GameStateStore.ts:160 | the whole seconds past the minute, below 60 |
| GameStateStore.FormatTimeLeft | src/game/state/GameStateStore.ts:144-165 | empty with no timer, `00:00` once the time left is up, otherwise the clock text of the time left. The time left is `timeLeft` when truthy, else the end time minus now |
| GameStateStore.ClockTextReadsBack | src/game/state/GameStateStore.ts:159-164 | the clock text reads back: the part before the colon is the minutes and the two digits after it the seconds (below 60), and together they are the time rounded down to the second |
| TimerSync.TickUpdateShowsServerReading | src/game/state/GameStateStore.ts:63-76 | a tick before the end sends one `timer:update`; a client that merges it shows, at any later moment, the server's reading of the time left |
| TimerSync.StartUpdateShowsEndTime | src/game/state/GameStateStore.ts:63-76 | a successful start sends the phase change and then a `timer:update`; a client that merges it at time t shows end minus t as time left, which is the whole duration when t is the start time |
| GameStateStore.GameStore.constructor | src/game/state/GameStateStore.ts:40-47 | LOBBY, a null timer, not initialised |
| GameStateStore.GameStore.SetGamePhase | src/game/state/GameStateStore.ts:58-60 | the phase is the one given; nothing else changes |
| GameStateStore.GameStore.SetTimer | src/game/state/GameStateStore.ts:122-129 | the timer is the old one merged with the patch |
| GameStateStore.GameStore.ResetTimer | src/game/state/GameStateStore.ts:79-88 | every timer field is null |
| GameStateStore.GameStore.HandleTimerUpdate | src/game/state/GameStateStore.ts:63-76 | the timer is `OnTimerUpdate` of the old one |
| GameStateStore.GameStore.HandleStateSync | src/game/state/GameStateStore.ts:91-107 | the phase is the server's and the timer `OnStateSyncTimer` of the old one |
| GameStateStore.GameStore.CanModifyCubes | src/game/state/GameStateStore.ts:168-170 | true exactly in an ACTIVE game |
| GameState.IncrementScore | src/game/state/GameState.ts:30 | the score goes up by the points and nothing else changes |
| GameState.NextLevel | src/game/state/GameState.ts:32 | the level goes up by one and nothing else changes |
| GameState.TogglePause | src/game/state/GameState.ts:34 | the pause flag flips and nothing else changes |
| GameState.ResetGame | src/game/state/GameState.ts:18-23 | the initial record: score 0, level 1, not paused, not over |
| GameState.GameOver | src/game/state/GameState.ts:38 | the game is over and nothing else changes |
| GameState.ActionLaws | src/game/state/GameState.ts:30-38 | increments add up, two toggles cancel, ending twice is ending once, a reset forgets the level |
| CubeState.Occupied | src/game/state/CubeState.ts:14-19 | true exactly when some stored cube is at the position |
| CubeState.AddCube | src/game/state/CubeState.ts:11-26 | a stored position leaves the list as it is; a new one is appended |
| CubeState.AddCubeKeepsDistinct | src/game/state/CubeState.ts:11-26 | adding keeps the cubes pairwise distinct and in order, grows the list by at most one, and then holds the position |
| CubeState.AddCubeIdempotent | src/game/state/CubeState.ts:11-26 | adding the same position twice is adding it once |
| CubeState.AddAllDistinct | src/game/state/CubeState.ts:11-26 | any series of additions keeps the list distinct and holds exactly the old and the added positions |
| Colours.CharUnits | src/utils/colours.ts:4-5 | a character's UTF-16 code units: one below U+10000, else a surrogate pair that encodes it |
| Colours.CodeUnits | src/utils/colours.ts:4 | between one and two code units per character, each below 0x10000 |
| Colours.ToInt32 | src/utils/colours.ts:5 | the 32-bit signed integer congruent to its argument modulo 2^32 |
| Colours.Step | src/utils/colours.ts:5 | one step is `code + 31 * acc` modulo 2^32, as `(acc << 5) - acc` wraps; exactly that when `32 * acc` fits in 32 bits; and for a code unit it moves the magnitude by at most 2^31 + 2^16 |
| Colours.Fold | src/utils/colours.ts:4-6 | `reduce` from the left: no units give the start value, and more units are one step applied to the fold of all but the last |
| Colours.HashBound | src/utils/colours.ts:4-6 | each step moves the hash by at most 2^31 + 2^16, so the doubles of the source stay exact for ids shorter than four million code units |
| Colours.Hash | src/utils/colours.ts:4-6 | the empty id hashes to 0, and the hash of an id is bounded by its number of code units times 2^31 + 2^16 |
| Colours.JsRemainder | src/utils/colours.ts:9 | JavaScript's `%`: the remainder has the sign of the dividend and the magnitude of the absolute remainder |
| Colours.Hue | src/utils/colours.ts:9 | a hue below 360, the absolute hash modulo 360 |
| Colours.PlayerColor | src/utils/colours.ts:10 | the colour text starts with `hsl(` and ends with `, 70%, 60%)`, with at least one character between |
| Colours.PlayerColorShape | src/utils/colours.ts:10 | the colour text is `hsl(`, the digits of the hue (below 360), then `, 70%, 60%)` |
| Colours.EmptyIdColour | src/utils/colours.ts:2-11 | the empty id is coloured `hsl(0, 70%, 60%)` |

## Left out

- The HTTP side of the server (Express, CORS, static files, the listen call), SIGINT handling and `start-network.ts` are I/O and not modelled.
- The socket transport is not modelled: each handler returns its events, and the target says who receives them. The `connection` handler only logs.
- Logging (`log`, `console.*`) is left out; it affects no state.
- `setInterval` and `clearInterval` are the field `timerRunning`. The scheduler's timing and `Date.now()` are given to `StartTimer` and `Tick` as `now`.
- `process.memoryUsage()` is a `heapUsed` parameter.
- Server.StartTimerSpec: minutes are exact decimals, not doubles. NaN is None. Infinity, negative zero and IEEE rounding are not modelled. As in the source, a `0x…` text reads as 0, so `timer 0x10` is refused.
- Colours.Hash: the hash is an unbounded integer. It agrees with the source's double arithmetic only while every partial sum stays below 2^53, which `HashBound` guarantees for ids shorter than about four million UTF-16 code units. Longer ids, where the doubles would round, are not modelled.
- CommandText.ParseFloat: `Infinity` literals and rounding to the nearest double are not modelled. The input is the lower-cased piece, so `E` never occurs.
- CommandText.NumberToString: exponent notation (below 1e-6 and from 1e21) and rounding to 17 significant digits are not modelled.
- GameStateStore.FormatTimeLeft: the clock minutes are printed as plain digits. From 10^21 minutes the source's `toString` switches to exponent notation (a `timer 1e22` countdown shows `1e+22:SS`); that form is not modelled.
- Coordinates, rotations and timer values are exact reals. NaN, negative zero and the infinities of the source's doubles are not modelled.
- A `player:move` payload is assumed to carry both a position and a rotation. The source stores `undefined` for a missing field (server.ts:207-213); that case is not modelled.
- The position key `x,y,z` is the position triple itself. Two positions with the same key text are the same position.
- The server's plain-object records are maps. Prototype keys such as `__proto__` are not modelled.
- PlayerState.PlayerStore.GetOtherPlayers: returns a map, not an array in `Object.values` order.
- PlayerState.PlayerStore.GetPlayerNames: returns a set, so order and repeats are not kept.
- The `initialize` listeners are registered asynchronously, with `ensureSocketConnected`, `joinGame`, and the service call in `updatePosition`. All of these are socket-service I/O and not modelled; the listeners' bodies are.
- The `catch` branch of `server:command` is not modelled: no modelled command throws.
- Join payloads are assumed to carry a string name and a position; a malformed join is not modelled. A non-string command is not modelled either.
- CommandText.ToLower: lowers ASCII letters only. Other scripts' case mapping is not modelled.
- The clear-before-start branch of `startTimer` is not modelled: under the invariant it cannot run.
- GameState.IncrementScore: the score is an unbounded integer, not a double.
- The rest of the client (React components, scenes, `math.ts`, the collision system, the debug store, `socketService.ts`) is outside this model.
