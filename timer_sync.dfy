/**
 * The server's countdown as the client shows it: the `timer:update` events
 * that `startTimer` and the interval callback broadcast, fed to the client
 * store's listener, give the time left the clock text is drawn from.
 */
module TimerSync {
  import opened Protocol
  import Server
  import CommandText
  import GameStateStore

  /**
   * A tick's update carries the server's reading of the time left, and the
   * client shows exactly that reading, whenever it receives the update and
   * whenever it formats it.
   */
  lemma TickUpdateShowsServerReading(st: Server.ServerState, client: GameStateStore.TimerState, now: int, received: int, shown: int)
    requires st.timerRunning && st.timer.endTime.Some? && st.timer.endTime.value - now as real > 0.0
    ensures var events := Server.TickSpec(st, now).events;
            && |events| == 1 && events[0].message.TimerUpdate?
            && var updated := GameStateStore.OnTimerUpdate(client, events[0].message.patch, received);
               GameStateStore.EffectiveTimeLeft(updated, shown) == st.timer.endTime.value - now as real
  {
  }

  /**
   * The update that starts a timer makes the client count down to the
   * server's end time: received at `received`, the time left is the end
   * minus that moment, so received at once it is the whole duration.
   */
  lemma StartUpdateShowsEndTime(st: Server.ServerState, minutes: CommandText.JsNumber, now: int,
                                client: GameStateStore.TimerState, received: int)
    requires now >= 0
    requires Server.StartTimerSpec(st, Some(minutes), now).result.success
    ensures var o := Server.StartTimerSpec(st, Some(minutes), now);
            && |o.events| == 2 && o.events[1].message.TimerUpdate?
            && var updated := GameStateStore.OnTimerUpdate(client, o.events[1].message.patch, received);
               && GameStateStore.EffectiveTimeLeft(updated, received) == o.state.timer.endTime.value - received as real
               && (received == now ==> GameStateStore.EffectiveTimeLeft(updated, received) == CommandText.NumberValue(minutes) * 60000.0)
  {
    var o := Server.StartTimerSpec(st, Some(minutes), now);
    assert o.state.timer.endTime.value > 0.0;
  }
}
