/**
 * Values exchanged between the session server and its clients: the records
 * of the shared game state and the outbound events a handler emits.
 * Coordinates are IEEE doubles in the source; here they are reals, compared
 * by value (NaN and negative zero are not modelled).
 */
module Protocol {

  datatype Option<+T> = None | Some(value: T)

  /** A grid position {x, y, z}; the server keys its cube index by this triple. */
  datatype Position = Position(x: real, y: real, z: real)

  /** A view direction {x, y}. */
  datatype Rotation = Rotation(x: real, y: real)

  /** A connected player; `id` and `name` are both the display name. */
  datatype Player = Player(id: string, name: string, position: Position, rotation: Rotation)

  /** A placed cube and the name of the player who placed it. */
  datatype Cube = Cube(position: Position, playerId: string, playerName: string)

  datatype Phase = Lobby | Active | Finished

  /** The server's timer record: each field is a number or null. */
  datatype ServerTimer = ServerTimer(startTime: Option<real>, duration: Option<real>, endTime: Option<real>)

  const NoTimer := ServerTimer(None, None, None)

  /**
   * One key of a partial record: absent, or present with a value that is a
   * number or null.
   */
  datatype Field = Absent | Present(value: Option<real>)

  /** A partial timer record, as carried by `timer:update` and taken by `setTimer`. */
  datatype TimerPatch = TimerPatch(startTime: Field, duration: Field, endTime: Field, timeLeft: Field)

  /** The whole game state, as sent by `state:sync`. */
  datatype GameSnapshot = GameSnapshot(players: map<string, Player>, cubes: seq<Cube>, gamePhase: Phase, timer: ServerTimer)

  /** The outbound events of the wire protocol. */
  datatype Outbound =
    | PlayerJoined(player: Player)                         // player:join
    | StateSync(state: GameSnapshot)                       // state:sync
    | NameModified(original: string, modified: string)     // player:name:modified
    | PlayerMoved(id: string, position: Position, rotation: Rotation)  // player:move
    | PlayerLeft(id: string)                               // player:leave
    | CubeAdded(cube: Cube)                                // cube:add
    | CubeRemoved(position: Position)                      // cube:remove
    | CubesReset                                           // cubes:reset
    | PhaseChanged(phase: Phase)                           // game:state:change
    | TimerUpdate(patch: TimerPatch)                       // timer:update
    | TimerEnded                                           // timer:end
    | CommandResponse(success: bool, message: string)      // server:command:response
    | CommandError(message: string)                        // server:command:error

  /**
   * Who receives an event: the socket that sent the inbound event
   * (`socket.emit`), every other socket (`socket.broadcast.emit`), or every
   * socket (`io.emit`).
   */
  datatype Target = Sender | Others | Everyone

  datatype Event = Event(target: Target, message: Outbound)
}
