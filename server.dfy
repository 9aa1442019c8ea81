/**
 * The authoritative session server: one mutable game state (players, cubes,
 * phase, timer), the two name directories, the cube position index and the
 * countdown handle, updated one inbound event at a time. Every socket
 * handler is a method of `SessionServer` that takes the socket id and
 * returns the events it emits, in emission order.
 */
module Server {
  import opened Protocol
  import opened Decimal
  import CommandText

  /** The capacity of the shared cube sequence (`MAX_CUBES`). */
  const MaxCubes := 1000

  type SocketId = string

  datatype JoinRequest = JoinRequest(name: string, position: Position)
  datatype MoveRequest = MoveRequest(position: Position, rotation: Rotation)
  /** A `cube:add` payload; a missing field is None. */
  datatype CubeAddRequest = CubeAddRequest(position: Option<Position>, playerName: Option<string>)
  datatype CubeRemoveRequest = CubeRemoveRequest(position: Option<Position>)
  datatype CommandRequest = CommandRequest(command: Option<string>)

  datatype CommandResult = CommandResult(success: bool, message: string)

  /** Every field of the server, as one value. */
  datatype ServerState = ServerState(
    players: map<string, Player>,
    cubes: seq<Cube>,
    gamePhase: Phase,
    timer: ServerTimer,
    nameToSocketId: map<string, SocketId>,
    socketIdToName: map<SocketId, string>,
    cubePositionMap: map<Position, int>,
    timerRunning: bool)

  /** What a command does: its reply, the new state and the broadcasts. */
  datatype Outcome = Outcome(result: CommandResult, state: ServerState, events: seq<Event>)

  /** What a timer tick does. */
  datatype Transition = Transition(state: ServerState, events: seq<Event>)

  // ---------------------------------------------------------------------
  // Identity registry

  /** The k-th name tried for `name`: the name itself, then name1, name2, ... */
  function Candidate(name: string, k: nat): (c: string)
    ensures k == 0 ==> c == name
    ensures k != 0 ==> && |c| > |name| && c[..|name|] == name
                       && AllDigits(c[|name|..]) && DigitsValue(c[|name|..]) == k
  {
    if k == 0 then name
    else
      var digits := NatToString(k);
      NatToStringRoundTrip(k);
      assert (name + digits)[..|name|] == name && (name + digits)[|name|..] == digits;
      name + digits
  }

  /** Different suffixes give different names: a consequence of the digits reading back. */
  lemma CandidateInjective(name: string, j: nat, k: nat)
    requires Candidate(name, j) == Candidate(name, k)
    ensures j == k
  {
  }

  ghost function Candidates(name: string, n: nat): set<string> {
    set j | 0 <= j < n :: Candidate(name, j)
  }

  lemma {:induction false} CandidatesSize(name: string, n: nat)
    ensures |Candidates(name, n)| == n
  {
    if n > 0 {
      CandidatesSize(name, n - 1);
      assert Candidates(name, n) == Candidates(name, n - 1) + {Candidate(name, n - 1)};
    }
  }

  lemma SubsetSize<T>(a: set<T>, b: set<T>)
    requires a <= b
    ensures |a| <= |b|
  {
    assert b == a + (b - a);
  }

  /**
   * `unique` is the first of name, name1, name2, ... that is not taken.
   */
  ghost predicate MintedFrom(taken: set<string>, name: string, unique: string) {
    && unique !in taken
    && exists k: nat :: unique == Candidate(name, k) && forall j: nat :: j < k ==> Candidate(name, j) in taken
  }

  /** There is only one first free candidate. */
  lemma MintedFromUnique(taken: set<string>, name: string, u1: string, u2: string)
    requires MintedFrom(taken, name, u1) && MintedFrom(taken, name, u2)
    ensures u1 == u2
  {
    var k1: nat :| u1 == Candidate(name, k1) && forall j: nat :: j < k1 ==> Candidate(name, j) in taken;
    var k2: nat :| u2 == Candidate(name, k2) && forall j: nat :: j < k2 ==> Candidate(name, j) in taken;
    assert k1 <= k2 && k2 <= k1;
  }

  /** A second player asking for a name held only by the first one is given the name with suffix 1. */
  lemma FirstCollisionGetsSuffixOne(name: string, unique: string)
    requires MintedFrom({name}, name, unique)
    ensures unique == name + "1"
  {
    var k: nat :| unique == Candidate(name, k) && forall j: nat :: j < k ==> Candidate(name, j) in {name};
    assert Candidate(name, 1) !in {name} by {
      assert |Candidate(name, 1)| > |name|;
    }
    assert k == 1;
    assert NatToString(1) == "1";
  }

  /**
   * The suffix loop of `player:join`: try name, name1, name2, ... until one
   * is not taken.
   */
  method MintName(taken: set<string>, name: string) returns (unique: string, suffix: nat)
    ensures unique !in taken && unique == Candidate(name, suffix)
    ensures forall j: nat :: j < suffix ==> Candidate(name, j) in taken
  {
    unique := name;
    var counter: nat := 1;
    while unique in taken
      invariant counter >= 1 && unique == Candidate(name, counter - 1)
      invariant forall j: nat :: j < counter - 1 ==> Candidate(name, j) in taken
      decreases |taken| - (counter - 1)
    {
      assert Candidates(name, counter) <= taken;
      CandidatesSize(name, counter);
      SubsetSize(Candidates(name, counter), taken);
      unique := name + NatToString(counter);
      counter := counter + 1;
    }
    suffix := counter - 1;
  }

  /**
   * The name directories agree with each other and with the players: a name
   * has an owning socket exactly when it has a player, every player is keyed
   * by its own id and name, and every socket's name is owned by that socket.
   */
  ghost predicate RegistryConsistent(players: map<string, Player>, nameToSocketId: map<string, SocketId>, socketIdToName: map<SocketId, string>) {
    && nameToSocketId.Keys == players.Keys
    && (forall n :: n in players ==> players[n].id == n && players[n].name == n)
    && (forall s :: s in socketIdToName ==> socketIdToName[s] in nameToSocketId && nameToSocketId[socketIdToName[s]] == s)
  }

  /** Binding a name no other socket owns to a socket, with a fresh player record, keeps the directories consistent. */
  lemma BindKeepsRegistry(players: map<string, Player>, nameToSocketId: map<string, SocketId>, socketIdToName: map<SocketId, string>,
                          socket: SocketId, player: Player)
    requires RegistryConsistent(players, nameToSocketId, socketIdToName)
    requires player.id == player.name
    requires player.name !in nameToSocketId || nameToSocketId[player.name] == socket
    ensures RegistryConsistent(players[player.name := player], nameToSocketId[player.name := socket], socketIdToName[socket := player.name])
  {
  }

  /** New directories that agree keep the invariant. */
  lemma RegistryUpdateKeepsConsistent(st: ServerState, players: map<string, Player>, nameToSocketId: map<string, SocketId>, socketIdToName: map<SocketId, string>)
    requires Consistent(st) && RegistryConsistent(players, nameToSocketId, socketIdToName)
    ensures Consistent(st.(players := players, nameToSocketId := nameToSocketId, socketIdToName := socketIdToName))
  {
  }

  /** `player:join` keeps the requested name on a reconnection or when no player has it. */
  predicate Reconnecting(st: ServerState, socket: SocketId, name: string) {
    (name in st.nameToSocketId && st.nameToSocketId[name] == socket) || name !in st.players
  }

  // ---------------------------------------------------------------------
  // Spatial cube index

  /**
   * The position index mirrors the cube sequence: each key is the position
   * of the cube at its stored index, and each cube's position is a key
   * holding that cube's index. Hence no two cubes share a position.
   */
  ghost predicate IndexMirrors(cubes: seq<Cube>, index: map<Position, int>) {
    && (forall p :: p in index ==> 0 <= index[p] < |cubes| && cubes[index[p]].position == p)
    && (forall i :: 0 <= i < |cubes| ==> cubes[i].position in index && index[cubes[i].position] == i)
  }

  lemma IndexMirrorsDistinct(cubes: seq<Cube>, index: map<Position, int>)
    requires IndexMirrors(cubes, index)
    ensures forall i, j :: 0 <= i < j < |cubes| ==> cubes[i].position != cubes[j].position
    ensures index.Keys == set i | 0 <= i < |cubes| :: cubes[i].position
  {
  }

  /** The index is determined by the sequence. */
  lemma IndexMirrorsUnique(cubes: seq<Cube>, index1: map<Position, int>, index2: map<Position, int>)
    requires IndexMirrors(cubes, index1) && IndexMirrors(cubes, index2)
    ensures index1 == index2
  {
    assert index1.Keys == index2.Keys by {
      forall p | p in index1 ensures p in index2 {
        assert cubes[index1[p]].position == p;
      }
      forall p | p in index2 ensures p in index1 {
        assert cubes[index2[p]].position == p;
      }
    }
    forall p | p in index1 ensures index1[p] == index2[p] {
      assert cubes[index1[p]].position == p;
    }
  }

  lemma AppendKeepsIndex(cubes: seq<Cube>, index: map<Position, int>, cube: Cube)
    requires IndexMirrors(cubes, index) && cube.position !in index
    ensures IndexMirrors(cubes + [cube], index[cube.position := |cubes|])
  {
    var cubes' := cubes + [cube];
    forall i | 0 <= i < |cubes'| ensures cubes'[i].position in index[cube.position := |cubes|] {
    }
  }

  lemma EvictionKeepsIndex(cubes: seq<Cube>, index: map<Position, int>, shifted: map<Position, int>)
    requires IndexMirrors(cubes, index) && |cubes| > 0
    requires shifted.Keys == index.Keys - {cubes[0].position}
    requires forall p :: p in shifted ==> shifted[p] == index[p] - 1
    ensures IndexMirrors(cubes[1..], shifted)
  {
    forall p | p in shifted ensures 0 <= shifted[p] < |cubes| - 1 && cubes[1..][shifted[p]].position == p {
      assert index[p] != 0;
    }
    forall i | 0 <= i < |cubes| - 1 ensures cubes[1..][i].position in shifted && shifted[cubes[1..][i].position] == i {
      assert cubes[1..][i] == cubes[i + 1];
    }
  }

  lemma RemovalKeepsIndex(cubes: seq<Cube>, index: map<Position, int>, k: int, shifted: map<Position, int>)
    requires IndexMirrors(cubes, index) && 0 <= k < |cubes|
    requires shifted.Keys == index.Keys - {cubes[k].position}
    requires forall p :: p in shifted ==> shifted[p] == if index[p] > k then index[p] - 1 else index[p]
    ensures IndexMirrors(cubes[..k] + cubes[k + 1..], shifted)
  {
    var rest := cubes[..k] + cubes[k + 1..];
    forall p | p in shifted ensures 0 <= shifted[p] < |rest| && rest[shifted[p]].position == p {
      assert index[p] != k;
    }
    forall i | 0 <= i < |rest| ensures rest[i].position in shifted && shifted[rest[i].position] == i {
      if i < k {
        assert rest[i] == cubes[i];
      } else {
        assert rest[i] == cubes[i + 1];
      }
    }
  }

  /** New cubes with an index that mirrors them, within capacity, keep the invariant. */
  lemma CubesUpdateKeepsConsistent(st: ServerState, cubes: seq<Cube>, index: map<Position, int>)
    requires Consistent(st) && IndexMirrors(cubes, index) && |cubes| <= MaxCubes
    ensures Consistent(st.(cubes := cubes, cubePositionMap := index))
  {
  }

  /** `Object.keys(cubePositionMap).forEach(key => cubePositionMap[key]--)`. */
  method DecrementAll(index: map<Position, int>) returns (shifted: map<Position, int>)
    ensures shifted.Keys == index.Keys
    ensures forall p :: p in index ==> shifted[p] == index[p] - 1
  {
    shifted := index;
    var pending := index.Keys;
    while pending != {}
      invariant pending <= index.Keys && shifted.Keys == index.Keys
      invariant forall p :: p in index && p !in pending ==> shifted[p] == index[p] - 1
      invariant forall p :: p in pending ==> shifted[p] == index[p]
      decreases pending
    {
      var p :| p in pending;
      shifted := shifted[p := shifted[p] - 1];
      pending := pending - {p};
    }
  }

  /** The same loop, decrementing only the indices above the removed one. */
  method DecrementAfter(index: map<Position, int>, removed: int) returns (shifted: map<Position, int>)
    ensures shifted.Keys == index.Keys
    ensures forall p :: p in index ==> shifted[p] == if index[p] > removed then index[p] - 1 else index[p]
  {
    shifted := index;
    var pending := index.Keys;
    while pending != {}
      invariant pending <= index.Keys && shifted.Keys == index.Keys
      invariant forall p :: p in index && p !in pending ==> shifted[p] == if index[p] > removed then index[p] - 1 else index[p]
      invariant forall p :: p in pending ==> shifted[p] == index[p]
      decreases pending
    {
      var p :| p in pending;
      if shifted[p] > removed {
        shifted := shifted[p := shifted[p] - 1];
      }
      pending := pending - {p};
    }
  }

  /** `Object.keys(cubePositionMap).forEach(key => delete cubePositionMap[key])`. */
  method DeleteAll(index: map<Position, int>) returns (cleared: map<Position, int>)
    ensures cleared == map[]
  {
    cleared := index;
    var pending := index.Keys;
    while pending != {}
      invariant cleared.Keys == pending
      decreases pending
    {
      var key :| key in pending;
      cleared := cleared - {key};
      pending := pending - {key};
    }
  }

  // ---------------------------------------------------------------------
  // Game phase and timer

  /**
   * A countdown is scheduled exactly when the timer record is set; it only
   * runs while the game is ACTIVE, and its end is its start plus a positive
   * duration.
   */
  ghost predicate TimerConsistent(phase: Phase, timer: ServerTimer, running: bool) {
    && (running ==> phase == Active)
    && (running <==> timer != NoTimer)
    && (running ==> && timer.startTime.Some? && timer.duration.Some? && timer.endTime.Some?
                    && timer.duration.value > 0.0
                    && timer.endTime.value == timer.startTime.value + timer.duration.value)
  }

  /** The invariant of the server state. */
  ghost predicate Consistent(st: ServerState) {
    && IndexMirrors(st.cubes, st.cubePositionMap)
    && |st.cubes| <= MaxCubes
    && RegistryConsistent(st.players, st.nameToSocketId, st.socketIdToName)
    && TimerConsistent(st.gamePhase, st.timer, st.timerRunning)
  }

  function StartGameSpec(st: ServerState): (o: Outcome)
    ensures o.result.success <==> st.gamePhase != Active
    ensures o.state.gamePhase == Active
    ensures o.result.success ==> o.state == st.(gamePhase := Active) && o.events == [Event(Everyone, PhaseChanged(Active))]
    ensures !o.result.success ==> o.state == st && o.events == []
    ensures Consistent(st) ==> Consistent(o.state)
  {
    if st.gamePhase == Active then Outcome(CommandResult(false, "Game is already active"), st, [])
    else Outcome(CommandResult(true, "Game started"), st.(gamePhase := Active), [Event(Everyone, PhaseChanged(Active))])
  }

  /** The start reply: `Timer started for <minutes> minute[s]`. */
  function TimerStartedMessage(minutes: CommandText.JsNumber): string {
    "Timer started for " + CommandText.NumberToString(minutes) + " minute"
      + (if CommandText.NumberValue(minutes) == 1.0 then "" else "s")
  }

  /**
   * The minutes in the start reply read back under `parseFloat` as the
   * number the timer was started with, and "minute" is plural unless that number is 1.
   */
  lemma TimerStartedMessageReadsBack(minutes: CommandText.JsNumber)
    ensures var m := TimerStartedMessage(minutes);
            var tail := if CommandText.NumberValue(minutes) == 1.0 then " minute" else " minutes";
            && |m| > 18 + |tail|
            && m[..18] == "Timer started for " && m[|m| - |tail|..] == tail
            && var text := m[18..|m| - |tail|];
               && CommandText.NoUpper(text)
               && CommandText.ParseFloat(text).Some?
               && CommandText.NumberValue(CommandText.ParseFloat(text).value) == CommandText.NumberValue(minutes)
  {
    var m := TimerStartedMessage(minutes);
    var prefix, text := "Timer started for ", CommandText.NumberToString(minutes);
    var tail := if CommandText.NumberValue(minutes) == 1.0 then " minute" else " minutes";
    assert m == prefix + text + tail by {
      assert " minute" + (if CommandText.NumberValue(minutes) == 1.0 then "" else "s") == tail;
    }
    assert |prefix| == 18;
    assert m[..18] == prefix && m[18..|m| - |tail|] == text && m[|m| - |tail|..] == tail by {
      Framed(prefix, text, tail);
    }
    var cut := m[18..|m| - |tail|];
    assert cut == text;
    CommandText.NumberToStringReadsBack(minutes);
    assert CommandText.NoUpper(cut);
    assert CommandText.ParseFloat(cut) == CommandText.ParseFloat(text);
  }

  /** `startTimer(minutes)` at time `now`; None stands for NaN. */
  function StartTimerSpec(st: ServerState, minutes: Option<CommandText.JsNumber>, now: int): (o: Outcome)
    ensures !o.result.success ==> o.state == st && o.events == []
    ensures (minutes.None? || CommandText.NumberValue(minutes.value) <= 0.0) ==> !o.result.success
    ensures st.gamePhase == Active ==> !o.result.success
    ensures o.result.success <==> minutes.Some? && CommandText.NumberValue(minutes.value) > 0.0 && st.gamePhase != Active
    ensures o.result.success ==>
              var t := o.state.timer;
              && o.state.gamePhase == Active && o.state.timerRunning
              && t.startTime == Some(now as real)
              && t.duration == Some(CommandText.NumberValue(minutes.value) * 60000.0)
              && t.endTime.Some? && t.endTime.value - t.startTime.value == t.duration.value
              && o.state == st.(timer := t, gamePhase := Active, timerRunning := true)
              && o.events == [Event(Everyone, PhaseChanged(Active)),
                              Event(Everyone, TimerUpdate(TimerPatch(Present(t.startTime), Present(t.duration), Present(t.endTime), Absent)))]
    ensures Consistent(st) ==> Consistent(o.state)
  {
    if minutes.None? || CommandText.NumberValue(minutes.value) <= 0.0 then
      Outcome(CommandResult(false, "Invalid time. Usage: timer <minutes>"), st, [])
    else if st.gamePhase == Active then
      Outcome(CommandResult(false, "Game is already active"), st, [])
    else
      var start := now as real;
      var duration := CommandText.NumberValue(minutes.value) * 60.0 * 1000.0;
      var timer := ServerTimer(Some(start), Some(duration), Some(start + duration));
      Outcome(CommandResult(true, TimerStartedMessage(minutes.value)),
              st.(timer := timer, gamePhase := Active, timerRunning := true),
              [Event(Everyone, PhaseChanged(Active)),
               Event(Everyone, TimerUpdate(TimerPatch(Present(timer.startTime), Present(timer.duration), Present(timer.endTime), Absent)))])
  }

  /** The body of the 1-second interval callback, at time `now`. */
  function TickSpec(st: ServerState, now: int): (t: Transition)
    ensures !st.timerRunning ==> t == Transition(st, [])
    ensures st.timerRunning && st.timer.endTime.Some? && st.timer.endTime.value - now as real <= 0.0 ==>
              t.state == st.(gamePhase := Finished, timer := NoTimer, timerRunning := false)
              && t.events == [Event(Everyone, PhaseChanged(Finished)), Event(Everyone, TimerEnded)]
    ensures st.timerRunning && st.timer.endTime.Some? && st.timer.endTime.value - now as real > 0.0 ==>
              t.state == st
              && t.events == [Event(Everyone, TimerUpdate(TimerPatch(Absent, Absent, Present(st.timer.endTime),
                                                                       Present(Some(st.timer.endTime.value - now as real)))))]
    ensures Consistent(st) ==> Consistent(t.state)
  {
    if !st.timerRunning then Transition(st, [])
    else
      var timeLeft := (if st.timer.endTime.Some? then st.timer.endTime.value else 0.0) - now as real;
      if timeLeft <= 0.0 then
        Transition(st.(timerRunning := false, gamePhase := Finished, timer := NoTimer),
                   [Event(Everyone, PhaseChanged(Finished)), Event(Everyone, TimerEnded)])
      else
        Transition(st, [Event(Everyone, TimerUpdate(TimerPatch(Absent, Absent, Present(st.timer.endTime), Present(Some(timeLeft)))))])
  }

  /** The reset reply: `Reset <n> cube[s] and returned to lobby.`, with n the digits of the count. */
  function ResetMessage(count: nat): (m: string)
    ensures var tail := if count == 1 then " cube and returned to lobby." else " cubes and returned to lobby.";
            && |m| > 6 + |tail|
            && m[..6] == "Reset " && m[|m| - |tail|..] == tail
            && var digits := m[6..|m| - |tail|];
               AllDigits(digits) && DigitsValue(digits) == count
  {
    var digits := NatToString(count);
    var tail := if count == 1 then " cube and returned to lobby." else " cubes and returned to lobby.";
    NatToStringRoundTrip(count);
    Framed("Reset ", digits, tail);
    "Reset " + digits + tail
  }

  function ResetSpec(st: ServerState): (o: Outcome)
    ensures o.result == CommandResult(true, ResetMessage(|st.cubes|))
    ensures o.state == st.(cubes := [], cubePositionMap := map[], gamePhase := Lobby, timer := NoTimer, timerRunning := false)
    ensures o.events == [Event(Everyone, CubesReset), Event(Everyone, PhaseChanged(Lobby)), Event(Everyone, TimerEnded)]
    ensures Consistent(st) ==> Consistent(o.state)
  {
    Outcome(CommandResult(true, ResetMessage(|st.cubes|)),
            st.(cubes := [], cubePositionMap := map[], gamePhase := Lobby, timer := NoTimer, timerRunning := false),
            [Event(Everyone, CubesReset), Event(Everyone, PhaseChanged(Lobby)), Event(Everyone, TimerEnded)])
  }

  /** Resetting twice in a row replies, on the second time, with a count of zero and changes nothing more. */
  lemma ResetIsIdempotent(st: ServerState)
    ensures ResetSpec(ResetSpec(st).state).state == ResetSpec(st).state
    ensures ResetSpec(ResetSpec(st).state).result == CommandResult(true, "Reset " + "0" + " cubes and returned to lobby.")
  {
    var first := ResetSpec(st).state;
    assert |first.cubes| == 0;
    ResetMessageZero();
  }

  lemma ResetMessageZero()
    ensures ResetMessage(0) == "Reset " + "0" + " cubes and returned to lobby."
  {
    assert NatToString(0) == "0";
  }

  /** `Math.round(heapUsed / 1024 / 1024)`: whole mebibytes, halves rounded up. */
  function HeapMegabytes(heapUsed: nat): (mb: nat)
    ensures (mb as real) - 0.5 <= heapUsed as real / 1048576.0 < (mb as real) + 0.5
  {
    (2 * heapUsed + 1048576) / 2097152
  }

  const HelpText := "Available commands: reset, startgame, timer <minutes>, memory, help"

  /**
   * `processCommand(command, socketId)`: the caller must have a name; the
   * first piece of the trimmed, lower-cased command picks the action.
   */
  function ProcessCommandSpec(st: ServerState, command: string, socket: SocketId, now: int, heapUsed: nat): (o: Outcome)
    ensures (socket !in st.socketIdToName || st.socketIdToName[socket] == "") ==>
              o == Outcome(CommandResult(false, "You must be logged in to use commands"), st, [])
    ensures var cmd := CommandText.CommandParts(command)[0];
            cmd !in {"reset", "startgame", "timer", "memory", "help"} ==>
              o.state == st && o.events == [] && !o.result.success
    ensures o.result.success ==> socket in st.socketIdToName && st.socketIdToName[socket] != ""
    ensures Consistent(st) ==> Consistent(o.state)
  {
    var parts := CommandText.CommandParts(command);
    var cmd := parts[0];
    if socket !in st.socketIdToName || st.socketIdToName[socket] == "" then
      Outcome(CommandResult(false, "You must be logged in to use commands"), st, [])
    else if cmd == "reset" then ResetSpec(st)
    else if cmd == "startgame" then StartGameSpec(st)
    else if cmd == "timer" then
      CommandText.CommandPartsNoUpper(command);
      var minutes := if |parts| >= 2 then CommandText.ParseFloat(parts[1]) else None;
      StartTimerSpec(st, minutes, now)
    else if cmd == "memory" then
      Outcome(CommandResult(true, "Memory usage: " + NatToString(HeapMegabytes(heapUsed)) + "MB / 512MB"), st, [])
    else if cmd == "help" then
      Outcome(CommandResult(true, HelpText), st, [])
    else
      Outcome(CommandResult(false, "Unknown command: " + cmd + ". Type 'help' for available commands."), st, [])
  }

  lemma TimerWord()
    ensures CommandText.NoSpace("timer") && CommandText.NoUpper("timer")
  {
    var a := "timer";
    forall i | 0 <= i < |a| ensures !CommandText.IsSpace(a[i]) && !CommandText.IsUpper(a[i]) {
      assert 'a' <= a[i] <= 'z';
    }
  }

  lemma TimerThenDigits(n: nat)
    ensures CommandText.CommandParts("timer" + " " + NatToString(n)) == ["timer", NatToString(n)]
  {
    TimerWord();
    CommandText.DigitsAreLowerWord(NatToString(n));
    CommandText.CommandPartsOfTwoWords("timer", NatToString(n));
  }

  lemma TimerSpaceJoin(n: nat)
    ensures "timer" + " " + NatToString(n) == "timer " + NatToString(n)
  {
  }

  /** `timer <n>` splits into the two pieces "timer" and the digits of n. */
  lemma TimerCommandParts(n: nat)
    ensures CommandText.CommandParts("timer " + NatToString(n)) == ["timer", NatToString(n)]
  {
    TimerThenDigits(n);
    TimerSpaceJoin(n);
  }

  /** The `timer` reply for a whole number of minutes. */
  lemma TimerStartedMessageWhole(n: nat)
    requires n >= 1
    ensures TimerStartedMessage(CommandText.JsNumber(false, n, 0))
            == "Timer started for " + NatToString(n) + " minute" + (if n == 1 then "" else "s")
  {
    CommandText.ParseFloatOfNat(n);
    CommandText.NumberToStringWhole(CommandText.JsNumber(false, n, 0));
  }

  /** A command whose pieces are "timer" and a word starts the timer with that word parsed. */
  lemma TimerCommandDispatch(st: ServerState, command: string, word: string, socket: SocketId, now: int, heapUsed: nat)
    requires CommandText.CommandParts(command) == ["timer", word] && CommandText.NoUpper(word)
    requires socket in st.socketIdToName && st.socketIdToName[socket] != ""
    ensures ProcessCommandSpec(st, command, socket, now, heapUsed) == StartTimerSpec(st, CommandText.ParseFloat(word), now)
  {
  }

  lemma StartTimerWholeTimer(st: ServerState, n: nat, now: int)
    requires n >= 1 && st.gamePhase != Active
    ensures var o := StartTimerSpec(st, Some(CommandText.JsNumber(false, n, 0)), now);
            o.state.timer == ServerTimer(Some(now as real), Some((n * 60000) as real), Some(now as real + (n * 60000) as real))
  {
    CommandText.WholeValue(n);
  }

  lemma StartTimerWholeReply(st: ServerState, n: nat, now: int)
    requires n >= 1 && st.gamePhase != Active
    ensures var o := StartTimerSpec(st, Some(CommandText.JsNumber(false, n, 0)), now);
            o.result == CommandResult(true, "Timer started for " + NatToString(n) + " minute" + (if n == 1 then "" else "s"))
  {
    CommandText.ParseFloatOfNat(n);
    TimerStartedMessageWhole(n);
  }

  /** Starting the timer for a whole number n >= 1 of minutes. */
  lemma StartTimerWhole(st: ServerState, n: nat, now: int)
    requires n >= 1 && st.gamePhase != Active
    ensures var o := StartTimerSpec(st, Some(CommandText.JsNumber(false, n, 0)), now);
            && o.result == CommandResult(true, "Timer started for " + NatToString(n) + " minute" + (if n == 1 then "" else "s"))
            && o.state.gamePhase == Active
            && o.state.timer == ServerTimer(Some(now as real), Some((n * 60000) as real), Some(now as real + (n * 60000) as real))
  {
    StartTimerWholeTimer(st, n, now);
    StartTimerWholeReply(st, n, now);
  }

  /**
   * `timer <n>` from a named player outside an ACTIVE game starts an
   * n-minute countdown and says so; with n = 0 it is refused.
   */
  lemma TimerCommandWhole(st: ServerState, n: nat, socket: SocketId, now: int, heapUsed: nat)
    requires socket in st.socketIdToName && st.socketIdToName[socket] != ""
    requires st.gamePhase != Active
    ensures var o := ProcessCommandSpec(st, "timer " + NatToString(n), socket, now, heapUsed);
            && (n == 0 ==> o == Outcome(CommandResult(false, "Invalid time. Usage: timer <minutes>"), st, []))
            && (n >= 1 ==>
                  && o.result == CommandResult(true, "Timer started for " + NatToString(n) + " minute" + (if n == 1 then "" else "s"))
                  && o.state.gamePhase == Active
                  && o.state.timer == ServerTimer(Some(now as real), Some((n * 60000) as real), Some(now as real + (n * 60000) as real)))
  {
    TimerCommandParts(n);
    CommandText.ParseFloatOfNat(n);
    TimerCommandDispatch(st, "timer " + NatToString(n), NatToString(n), socket, now, heapUsed);
    if n >= 1 {
      StartTimerWhole(st, n, now);
    }
  }

  // ---------------------------------------------------------------------
  // The server

  class SessionServer {
    var players: map<string, Player>
    var cubes: seq<Cube>
    var gamePhase: Phase
    var timer: ServerTimer
    var nameToSocketId: map<string, SocketId>
    var socketIdToName: map<SocketId, string>
    var cubePositionMap: map<Position, int>
    /** Whether the countdown interval is scheduled (`timerInterval` is not null). */
    var timerRunning: bool

    function State(): ServerState
      reads this
    {
      ServerState(players, cubes, gamePhase, timer, nameToSocketId, socketIdToName, cubePositionMap, timerRunning)
    }

    /** The `gameState` object sent by `state:sync`. */
    function Snapshot(): GameSnapshot
      reads this
    {
      GameSnapshot(players, cubes, gamePhase, timer)
    }

    ghost predicate Valid()
      reads this
    {
      Consistent(State())
    }

    constructor ()
      ensures Valid()
      ensures State() == ServerState(map[], [], Lobby, NoTimer, map[], map[], map[], false)
    {
      players, cubes, gamePhase, timer := map[], [], Lobby, NoTimer;
      nameToSocketId, socketIdToName, cubePositionMap, timerRunning := map[], map[], map[], false;
    }

    /**
     * `player:join`: keep the requested name on a reconnection or when it is
     * free, otherwise take the first free name1, name2, ...; bind it to the
     * socket, (re)create the player, and tell the others, the joiner (full
     * state) and, if renamed, the joiner again.
     */
    method Join(socket: SocketId, request: JoinRequest) returns (events: seq<Event>)
      requires Valid()
      modifies this
      ensures Valid()
      ensures socket in socketIdToName
      ensures var final := socketIdToName[socket];
              && (Reconnecting(old(State()), socket, request.name) ==> final == request.name)
              && (!Reconnecting(old(State()), socket, request.name) ==> final != request.name && MintedFrom(old(players).Keys, request.name, final))
      ensures var final := socketIdToName[socket];
              var player := Player(final, final, request.position, Rotation(0.0, 0.0));
              && State() == old(State()).(players := old(players)[final := player],
                                          nameToSocketId := old(nameToSocketId)[final := socket],
                                          socketIdToName := old(socketIdToName)[socket := final])
              && events == [Event(Others, PlayerJoined(player)), Event(Sender, StateSync(Snapshot()))]
                           + (if final != request.name then [Event(Sender, NameModified(request.name, final))] else [])
      // a player record is only ever replaced by the socket that owns it
      ensures var final := socketIdToName[socket];
              final in old(players) ==> final in old(nameToSocketId) && old(nameToSocketId)[final] == socket
    {
      var name := request.name;
      var uniqueName := name;
      var reconnecting := (name in nameToSocketId && nameToSocketId[name] == socket) || name !in players;
      if !reconnecting {
        var suffix;
        uniqueName, suffix := MintName(players.Keys, name);
        assert suffix != 0;
        assert MintedFrom(players.Keys, name, uniqueName);
      }
      var player := Player(uniqueName, uniqueName, request.position, Rotation(0.0, 0.0));
      BindKeepsRegistry(players, nameToSocketId, socketIdToName, socket, player);
      RegistryUpdateKeepsConsistent(State(), players[uniqueName := player], nameToSocketId[uniqueName := socket], socketIdToName[socket := uniqueName]);
      nameToSocketId := nameToSocketId[uniqueName := socket];
      socketIdToName := socketIdToName[socket := uniqueName];
      players := players[uniqueName := player];
      events := [Event(Others, PlayerJoined(player)), Event(Sender, StateSync(Snapshot()))];
      if uniqueName != name {
        events := events + [Event(Sender, NameModified(name, uniqueName))];
      }
    }

    /** `player:move`: the sender's player takes the new position and rotation. */
    method Move(socket: SocketId, request: MoveRequest) returns (events: seq<Event>)
      requires Valid()
      modifies this
      ensures Valid()
      ensures var mover := if socket in old(socketIdToName) then old(socketIdToName)[socket] else "";
              if mover != "" && mover in old(players) then
                && State() == old(State()).(players := old(players)[mover := old(players)[mover].(position := request.position, rotation := request.rotation)])
                && events == [Event(Others, PlayerMoved(mover, request.position, request.rotation))]
              else
                State() == old(State()) && events == []
    {
      var playerName := if socket in socketIdToName then socketIdToName[socket] else "";
      if playerName != "" && playerName in players {
        players := players[playerName := players[playerName].(position := request.position, rotation := request.rotation)];
        events := [Event(Others, PlayerMoved(playerName, request.position, request.rotation))];
      } else {
        events := [];
      }
    }

    /**
     * `cube:add`: only in an ACTIVE game, only under the sender's own name,
     * only on a free position; at capacity the oldest cube is evicted first.
     */
    method AddCube(socket: SocketId, request: CubeAddRequest) returns (events: seq<Event>)
      requires Valid()
      modifies this
      ensures Valid() && |cubes| <= MaxCubes
      ensures var st := old(State());
              if request.position.None? || request.playerName.None? || request.playerName.value == "" then
                State() == st && events == []
              else if st.gamePhase != Active then
                State() == st && events == [Event(Sender, CommandError("Cannot add cubes outside of active game"))]
              else if socket !in st.socketIdToName || st.socketIdToName[socket] != request.playerName.value
                      || request.position.value in st.cubePositionMap then
                State() == st && events == []
              else
                var cube := Cube(request.position.value, request.playerName.value, request.playerName.value);
                var evict := |st.cubes| >= MaxCubes;
                && cubes == (if evict then st.cubes[1..] else st.cubes) + [cube]
                && State() == st.(cubes := cubes, cubePositionMap := cubePositionMap)
                && events == (if evict then [Event(Everyone, CubeRemoved(st.cubes[0].position))] else [])
                             + [Event(Others, CubeAdded(cube))]
    {
      if request.position.None? || request.playerName.None? || request.playerName.value == "" {
        return [];
      }
      if gamePhase != Active {
        return [Event(Sender, CommandError("Cannot add cubes outside of active game"))];
      }
      var position, playerName := request.position.value, request.playerName.value;
      if socket !in socketIdToName || playerName != socketIdToName[socket] {
        return [];
      }
      var currentPlayerName := socketIdToName[socket];
      if position in cubePositionMap {
        return [];
      }
      var newCube := Cube(position, currentPlayerName, currentPlayerName);
      events := PlaceCube(newCube);
      events := events + [Event(Others, CubeAdded(newCube))];
    }

    /** Appending a cube at a free position, evicting the oldest one when the store is full. */
    method PlaceCube(newCube: Cube) returns (events: seq<Event>)
      requires Valid() && newCube.position !in cubePositionMap
      modifies this
      ensures Valid()
      ensures var evict := |old(cubes)| >= MaxCubes;
              && cubes == (if evict then old(cubes)[1..] else old(cubes)) + [newCube]
              && State() == old(State()).(cubes := cubes, cubePositionMap := cubePositionMap)
              && events == (if evict then [Event(Everyone, CubeRemoved(old(cubes)[0].position))] else [])
    {
      events := [];
      if |cubes| >= MaxCubes {
        var oldest := cubes[0];
        EvictOldest();
        events := [Event(Everyone, CubeRemoved(oldest.position))];
      }
      AppendCube(newCube);
    }

    /** The oldest cube leaves and every index drops by one. */
    method EvictOldest()
      requires Valid() && |cubes| > 0
      modifies this
      ensures Valid()
      ensures cubes == old(cubes)[1..]
      ensures cubePositionMap.Keys == old(cubePositionMap.Keys) - {old(cubes)[0].position}
      ensures State() == old(State()).(cubes := cubes, cubePositionMap := cubePositionMap)
    {
      var oldest := cubes[0];
      var shifted := DecrementAll(cubePositionMap - {oldest.position});
      EvictionKeepsIndex(cubes, cubePositionMap, shifted);
      CubesUpdateKeepsConsistent(State(), cubes[1..], shifted);
      cubes, cubePositionMap := cubes[1..], shifted;
    }

    /** The cube goes last, indexed by its position. */
    method AppendCube(newCube: Cube)
      requires Valid() && |cubes| < MaxCubes && newCube.position !in cubePositionMap
      modifies this
      ensures Valid()
      ensures cubes == old(cubes) + [newCube]
      ensures State() == old(State()).(cubes := cubes, cubePositionMap := cubePositionMap)
    {
      AppendKeepsIndex(cubes, cubePositionMap, newCube);
      var index := cubePositionMap[newCube.position := |cubes|];
      CubesUpdateKeepsConsistent(State(), cubes + [newCube], index);
      cubes, cubePositionMap := cubes + [newCube], index;
    }

    /**
     * `cube:remove`: only in an ACTIVE game, and only the cube's owner may
     * remove it; the cubes after it move down one place.
     */
    method RemoveCube(socket: SocketId, request: CubeRemoveRequest) returns (events: seq<Event>)
      requires Valid()
      modifies this
      ensures Valid()
      ensures var st := old(State());
              if request.position.None? then
                State() == st && events == []
              else if st.gamePhase != Active then
                State() == st && events == [Event(Sender, CommandError("Cannot remove cubes outside of active game"))]
              else
                var p := request.position.value;
                if p in st.cubePositionMap && socket in st.socketIdToName
                   && st.cubes[st.cubePositionMap[p]].playerId == st.socketIdToName[socket] then
                  var k := st.cubePositionMap[p];
                  && cubes == st.cubes[..k] + st.cubes[k + 1..]
                  && State() == st.(cubes := cubes, cubePositionMap := cubePositionMap)
                  && events == [Event(Others, CubeRemoved(p))]
                else
                  State() == st && events == []
    {
      if request.position.None? {
        return [];
      }
      if gamePhase != Active {
        return [Event(Sender, CommandError("Cannot remove cubes outside of active game"))];
      }
      var position := request.position.value;
      if position !in cubePositionMap {
        return [];
      }
      var cubeIndex := cubePositionMap[position];
      var cube := cubes[cubeIndex];
      if socket in socketIdToName && cube.playerId == socketIdToName[socket] {
        RemoveAt(position);
        events := [Event(Others, CubeRemoved(position))];
      } else {
        events := [];
      }
    }

    /** The removal itself: the cube at `position` leaves, the index of each later cube drops by one. */
    method RemoveAt(position: Position)
      requires Valid() && position in cubePositionMap
      modifies this
      ensures Valid()
      ensures var k := old(cubePositionMap[position]);
              && cubes == old(cubes[..k] + cubes[k + 1..])
              && State() == old(State()).(cubes := cubes, cubePositionMap := cubePositionMap)
    {
      var cubeIndex := cubePositionMap[position];
      var index := cubePositionMap;
      cubes := cubes[..cubeIndex] + cubes[cubeIndex + 1..];
      cubePositionMap := cubePositionMap - {position};
      cubePositionMap := DecrementAfter(cubePositionMap, cubeIndex);
      RemovalKeepsIndex(old(cubes), index, cubeIndex, cubePositionMap);
      CubesUpdateKeepsConsistent(old(State()), cubes, cubePositionMap);
    }

    /**
     * `disconnect`: the socket's name is released, and its player removed
     * only if the socket still owns the name; everyone hears of it.
     */
    method Disconnect(socket: SocketId) returns (events: seq<Event>)
      requires Valid()
      modifies this
      ensures Valid()
      ensures var leaving := if socket in old(socketIdToName) then old(socketIdToName)[socket] else "";
              if leaving != "" && leaving in old(players) then
                var owner := leaving in old(nameToSocketId) && old(nameToSocketId)[leaving] == socket;
                && State() == old(State()).(players := if owner then old(players) - {leaving} else old(players),
                                            nameToSocketId := if owner then old(nameToSocketId) - {leaving} else old(nameToSocketId),
                                            socketIdToName := old(socketIdToName) - {socket})
                && events == [Event(Everyone, PlayerLeft(leaving))]
              else
                State() == old(State()) && events == []
      // in a consistent state the departing socket always owns its name
      ensures var leaving := if socket in old(socketIdToName) then old(socketIdToName)[socket] else "";
              leaving != "" ==> leaving in old(nameToSocketId) && old(nameToSocketId)[leaving] == socket
    {
      var playerName := if socket in socketIdToName then socketIdToName[socket] else "";
      if playerName != "" && playerName in players {
        if playerName in nameToSocketId && nameToSocketId[playerName] == socket {
          players := players - {playerName};
          nameToSocketId := nameToSocketId - {playerName};
        }
        socketIdToName := socketIdToName - {socket};
        events := [Event(Everyone, PlayerLeft(playerName))];
      } else {
        events := [];
      }
    }

    method StartGame() returns (result: CommandResult, events: seq<Event>)
      requires Valid()
      modifies this
      ensures Valid()
      ensures Outcome(result, State(), events) == StartGameSpec(old(State()))
    {
      if gamePhase == Active {
        return CommandResult(false, "Game is already active"), [];
      }
      gamePhase := Active;
      events := [Event(Everyone, PhaseChanged(Active))];
      result := CommandResult(true, "Game started");
    }

    method StartTimer(minutes: Option<CommandText.JsNumber>, now: int) returns (result: CommandResult, events: seq<Event>)
      requires Valid()
      modifies this
      ensures Valid()
      ensures Outcome(result, State(), events) == StartTimerSpec(old(State()), minutes, now)
    {
      if minutes.None? || CommandText.NumberValue(minutes.value) <= 0.0 {
        return CommandResult(false, "Invalid time. Usage: timer <minutes>"), [];
      }
      if gamePhase == Active {
        return CommandResult(false, "Game is already active"), [];
      }
      var start := now as real;
      var durationMs := CommandText.NumberValue(minutes.value) * 60.0 * 1000.0;
      timer := ServerTimer(Some(start), Some(durationMs), Some(start + durationMs));
      gamePhase := Active;
      events := [Event(Everyone, PhaseChanged(gamePhase)),
                 Event(Everyone, TimerUpdate(TimerPatch(Present(timer.startTime), Present(timer.duration), Present(timer.endTime), Absent)))];
      timerRunning := true;
      result := CommandResult(true, TimerStartedMessage(minutes.value));
    }

    /** One firing of the countdown interval; nothing fires once it is cleared. */
    method Tick(now: int) returns (events: seq<Event>)
      requires Valid()
      modifies this
      ensures Valid()
      ensures Transition(State(), events) == TickSpec(old(State()), now)
    {
      if !timerRunning {
        return [];
      }
      var timeLeft := (if timer.endTime.Some? then timer.endTime.value else 0.0) - now as real;
      if timeLeft <= 0.0 {
        timerRunning := false;
        gamePhase := Finished;
        events := [Event(Everyone, PhaseChanged(gamePhase)), Event(Everyone, TimerEnded)];
        timer := NoTimer;
      } else {
        events := [Event(Everyone, TimerUpdate(TimerPatch(Absent, Absent, Present(timer.endTime), Present(Some(timeLeft)))))];
      }
    }

    method ResetCubes() returns (result: CommandResult, events: seq<Event>)
      requires Valid()
      modifies this
      ensures Valid()
      ensures Outcome(result, State(), events) == ResetSpec(old(State()))
    {
      ghost var spec := ResetSpec(State());
      var cubeCount := |cubes|;
      cubes := [];
      cubePositionMap := DeleteAll(cubePositionMap);
      gamePhase := Lobby;
      if timerRunning {
        timerRunning := false;
      }
      timer := NoTimer;
      events := [Event(Everyone, CubesReset), Event(Everyone, PhaseChanged(gamePhase)), Event(Everyone, TimerEnded)];
      result := CommandResult(true, ResetMessage(cubeCount));
      assert State() == spec.state;
    }

    method ProcessCommand(command: string, socket: SocketId, now: int, heapUsed: nat) returns (result: CommandResult, events: seq<Event>)
      requires Valid()
      modifies this
      ensures Valid()
      ensures Outcome(result, State(), events) == ProcessCommandSpec(old(State()), command, socket, now, heapUsed)
    {
      var parts := CommandText.CommandParts(command);
      var cmd := parts[0];
      if socket !in socketIdToName || socketIdToName[socket] == "" {
        return CommandResult(false, "You must be logged in to use commands"), [];
      }
      if cmd == "reset" {
        result, events := ResetCubes();
      } else if cmd == "startgame" {
        result, events := StartGame();
      } else if cmd == "timer" {
        CommandText.CommandPartsNoUpper(command);
        var minutes := if |parts| >= 2 then CommandText.ParseFloat(parts[1]) else None;
        result, events := StartTimer(minutes, now);
      } else if cmd == "memory" {
        result, events := CommandResult(true, "Memory usage: " + NatToString(HeapMegabytes(heapUsed)) + "MB / 512MB"), [];
      } else if cmd == "help" {
        result, events := CommandResult(true, HelpText), [];
      } else {
        result, events := CommandResult(false, "Unknown command: " + cmd + ". Type 'help' for available commands."), [];
      }
    }

    /**
     * `server:command`: an absent or empty command is refused; otherwise the
     * command runs and its reply goes to the sender after any broadcasts.
     */
    method HandleCommand(socket: SocketId, request: CommandRequest, now: int, heapUsed: nat) returns (events: seq<Event>)
      requires Valid()
      modifies this
      ensures Valid()
      ensures request.command.None? || request.command.value == "" ==>
                State() == old(State()) && events == [Event(Sender, CommandError("Invalid command format"))]
      ensures request.command.Some? && request.command.value != "" ==>
                var o := ProcessCommandSpec(old(State()), request.command.value, socket, now, heapUsed);
                State() == o.state && events == o.events + [Event(Sender, CommandResponse(o.result.success, o.result.message))]
    {
      if request.command.None? || request.command.value == "" {
        return [Event(Sender, CommandError("Invalid command format"))];
      }
      var response, broadcasts := ProcessCommand(request.command.value, socket, now, heapUsed);
      events := broadcasts + [Event(Sender, CommandResponse(response.success, response.message))];
    }
  }
}
