/**
 * The client's player store: the roster of players it has heard of, a count
 * kept equal to the roster's size, and which player is the local one. The
 * socket listeners are pure reducers on the roster; the store applies them.
 */
module PlayerState {
  import opened Protocol

  /** The part of the store the socket listeners rewrite. */
  datatype Roster = Roster(players: map<string, Player>, count: int)

  /** `count` holds the number of keys of `players`. */
  predicate CountMatches(r: Roster) {
    r.count == |r.players|
  }

  /** `hasPositionChanged`: some coordinate differs. */
  function HasPositionChanged(a: Position, b: Position): (changed: bool)
    ensures changed <==> a != b
  {
    a.x != b.x || a.y != b.y || a.z != b.z
  }

  /** `hasRotationChanged`: some angle differs. */
  function HasRotationChanged(a: Rotation, b: Rotation): (changed: bool)
    ensures changed <==> a != b
  {
    a.x != b.x || a.y != b.y
  }

  /** The `player:join` listener: a player already present is not replaced. */
  function OnPlayerJoin(r: Roster, player: Player): (r': Roster)
    ensures player.id in r.players ==> r' == r
    ensures player.id !in r.players ==> r'.players == r.players[player.id := player]
    ensures player.id !in r.players ==> r'.players.Keys == r.players.Keys + {player.id} && |r'.players| == |r.players| + 1
    ensures CountMatches(r) ==> CountMatches(r')
    ensures player.id !in r.players ==> CountMatches(r')
  {
    if player.id in r.players then r
    else
      var players := r.players[player.id := player];
      Roster(players, |players|)
  }

  /** The `player:leave` listener: an unknown id is ignored. */
  function OnPlayerLeave(r: Roster, id: string): (r': Roster)
    ensures id !in r.players ==> r' == r
    ensures id in r.players ==> r'.players.Keys == r.players.Keys - {id} && |r'.players| == |r.players| - 1
    ensures forall k :: k in r'.players ==> k in r.players && r'.players[k] == r.players[k]
    ensures CountMatches(r) ==> CountMatches(r')
    ensures id in r.players ==> CountMatches(r')
  {
    if id !in r.players then r
    else
      var players := r.players - {id};
      Roster(players, |players|)
  }

  /**
   * The `player:move` listener. Skipping an update that changes nothing
   * gives the same roster as performing it: the named player takes the new
   * position and rotation, and no other entry changes.
   */
  function OnPlayerMove(r: Roster, id: string, position: Position, rotation: Rotation): (r': Roster)
    ensures id !in r.players ==> r' == r
    ensures id in r.players ==> r'.players == r.players[id := r.players[id].(position := position, rotation := rotation)]
    ensures r'.count == r.count && r'.players.Keys == r.players.Keys
  {
    if id !in r.players then r
    else
      var current := r.players[id];
      if !HasPositionChanged(current.position, position) && !HasRotationChanged(current.rotation, rotation) then r
      else Roster(r.players[id := current.(position := position, rotation := rotation)], r.count)
  }

  /** The `state:sync` listener: the server's players replace the roster. */
  function OnStateSync(r: Roster, snapshot: GameSnapshot): (r': Roster)
    ensures r'.players == snapshot.players && CountMatches(r')
  {
    Roster(snapshot.players, |snapshot.players|)
  }

  /** Joining then leaving under a fresh id gives back the roster. */
  lemma JoinThenLeave(r: Roster, player: Player)
    requires CountMatches(r) && player.id !in r.players
    ensures OnPlayerLeave(OnPlayerJoin(r, player), player.id) == r
  {
    var joined := OnPlayerJoin(r, player);
    assert joined.players - {player.id} == r.players;
  }

  /** Moves of different players commute. */
  lemma MovesCommute(r: Roster, a: string, pa: Position, ra: Rotation, b: string, pb: Position, rb: Rotation)
    requires a != b
    ensures OnPlayerMove(OnPlayerMove(r, a, pa, ra), b, pb, rb) == OnPlayerMove(OnPlayerMove(r, b, pb, rb), a, pa, ra)
  {
    var ab := OnPlayerMove(OnPlayerMove(r, a, pa, ra), b, pb, rb);
    var ba := OnPlayerMove(OnPlayerMove(r, b, pb, rb), a, pa, ra);
    assert ab.players == ba.players;
  }

  /** JavaScript truthiness of a string-or-null. */
  predicate Truthy(s: Option<string>) {
    s.Some? && s.value != ""
  }

  class PlayerStore {
    var players: map<string, Player>
    var localPlayerId: Option<string>
    var localPlayerName: Option<string>
    var count: int
    var isInitialized: bool

    /** The roster part of the store. */
    function Listed(): Roster
      reads this
    {
      Roster(players, count)
    }

    ghost predicate Valid()
      reads this
    {
      CountMatches(Listed())
    }

    constructor ()
      ensures Valid()
      ensures players == map[] && localPlayerId == None && localPlayerName == None && count == 0 && !isInitialized
    {
      players, localPlayerId, localPlayerName, count, isInitialized := map[], None, None, 0, false;
    }

    method HandlePlayerJoin(player: Player)
      requires Valid()
      modifies this
      ensures Valid()
      ensures Listed() == OnPlayerJoin(old(Listed()), player)
      ensures localPlayerId == old(localPlayerId) && localPlayerName == old(localPlayerName) && isInitialized == old(isInitialized)
    {
      var r := OnPlayerJoin(Listed(), player);
      players, count := r.players, r.count;
    }

    method HandlePlayerLeave(id: string)
      requires Valid()
      modifies this
      ensures Valid()
      ensures Listed() == OnPlayerLeave(old(Listed()), id)
      ensures localPlayerId == old(localPlayerId) && localPlayerName == old(localPlayerName) && isInitialized == old(isInitialized)
    {
      var r := OnPlayerLeave(Listed(), id);
      players, count := r.players, r.count;
    }

    method HandlePlayerMove(id: string, position: Position, rotation: Rotation)
      requires Valid()
      modifies this
      ensures Valid()
      ensures Listed() == OnPlayerMove(old(Listed()), id, position, rotation)
      ensures localPlayerId == old(localPlayerId) && localPlayerName == old(localPlayerName) && isInitialized == old(isInitialized)
    {
      var r := OnPlayerMove(Listed(), id, position, rotation);
      players, count := r.players, r.count;
    }

    method HandleStateSync(snapshot: GameSnapshot)
      modifies this
      ensures Valid()
      ensures Listed() == OnStateSync(old(Listed()), snapshot)
      ensures localPlayerId == old(localPlayerId) && localPlayerName == old(localPlayerName) && isInitialized == old(isInitialized)
    {
      players, count := snapshot.players, |snapshot.players|;
    }

    /** The `connect` listener: a store that knows its name takes the new socket id. */
    method HandleConnect(socketId: string)
      modifies this
      ensures localPlayerId == if Truthy(old(localPlayerName)) then Some(socketId) else old(localPlayerId)
      ensures Listed() == old(Listed()) && localPlayerName == old(localPlayerName) && isInitialized == old(isInitialized)
    {
      if Truthy(localPlayerName) {
        localPlayerId := Some(socketId);
      }
    }

    /**
     * The local half of `updatePosition`: an immediate move of the local
     * player's own entry, with the same effect as a `player:move` for it.
     */
    method UpdatePosition(position: Position, rotation: Rotation)
      requires Valid()
      modifies this
      ensures Valid()
      ensures Truthy(localPlayerId) ==> Listed() == OnPlayerMove(old(Listed()), localPlayerId.value, position, rotation)
      ensures !Truthy(localPlayerId) ==> Listed() == old(Listed())
      ensures localPlayerId == old(localPlayerId) && localPlayerName == old(localPlayerName) && isInitialized == old(isInitialized)
    {
      if Truthy(localPlayerId) && localPlayerId.value in players {
        var id := localPlayerId.value;
        var current := players[id];
        if !HasPositionChanged(current.position, position) && !HasRotationChanged(current.rotation, rotation) {
          return;
        }
        players := players[id := current.(position := Position(position.x, position.y, position.z),
                                          rotation := Rotation(rotation.x, rotation.y))];
      }
    }

    method SetLocalPlayer(id: string, name: string)
      modifies this
      ensures localPlayerId == Some(id) && localPlayerName == Some(name)
      ensures Listed() == old(Listed()) && isInitialized == old(isInitialized)
    {
      localPlayerId, localPlayerName := Some(id), Some(name);
    }

    /** `cleanup`: back to the initial record (listeners and socket are not modelled). */
    method Cleanup()
      modifies this
      ensures Valid()
      ensures players == map[] && localPlayerId == None && localPlayerName == None && count == 0 && !isInitialized
    {
      players, localPlayerId, localPlayerName, count, isInitialized := map[], None, None, 0, false;
    }

    /** `getLocalPlayer`: the local entry, if the local id is set and present. */
    function GetLocalPlayer(): (p: Option<Player>)
      reads this
      ensures p.Some? <==> Truthy(localPlayerId) && localPlayerId.value in players
      ensures p.Some? ==> p.value == players[localPlayerId.value]
    {
      if Truthy(localPlayerId) && localPlayerId.value in players then Some(players[localPlayerId.value]) else None
    }

    /** `getOtherPlayers`: the entries whose player id is not the local id. */
    function GetOtherPlayers(): (others: map<string, Player>)
      reads this
      ensures forall k :: k in others <==> k in players && Some(players[k].id) != localPlayerId
      ensures forall k :: k in others ==> others[k] == players[k]
    {
      map k | k in players && Some(players[k].id) != localPlayerId :: players[k]
    }

    /** `getPlayerNames`: the names of the players (order and repeats not kept). */
    function GetPlayerNames(): (names: set<string>)
      reads this
      ensures forall n :: n in names <==> exists k :: k in players && players[k].name == n
    {
      set k | k in players :: players[k].name
    }

    /**
     * When entries are keyed by their ids, the other players and the local
     * player together are the whole roster.
     */
    lemma OthersAndLocalPartition()
      requires forall k :: k in players ==> players[k].id == k
      ensures GetLocalPlayer().Some? ==> GetOtherPlayers().Keys + {localPlayerId.value} == players.Keys
      ensures GetLocalPlayer().None? && Truthy(localPlayerId) ==> GetOtherPlayers().Keys == players.Keys
      ensures localPlayerId.Some? ==> localPlayerId.value !in GetOtherPlayers()
    {
    }
  }
}
