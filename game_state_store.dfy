/**
 * The client's game-state store: the phase, the client's copy of the timer
 * (with a derived `timeLeft`), and the `MM:SS` text of the time left.
 * `Date.now()` is the parameter `now` (milliseconds).
 */
module GameStateStore {
  import opened Protocol
  import opened Decimal

  /** The client timer: each field is a number or null. */
  datatype TimerState = TimerState(startTime: Option<real>, duration: Option<real>, endTime: Option<real>, timeLeft: Option<real>)

  const NullTimer := TimerState(None, None, None, None)

  /** JavaScript truthiness of a number-or-null (NaN is not modelled). */
  predicate Truthy(v: Option<real>) {
    v.Some? && v.value != 0.0
  }

  /** Truthiness of a key of a partial record: absent reads as undefined. */
  predicate FieldTruthy(f: Field) {
    f.Present? && Truthy(f.value)
  }

  function Merge(current: Option<real>, f: Field): Option<real> {
    if f.Present? then f.value else current
  }

  /** `{...timer, ...patch}`: the supplied fields replace, the rest stay. */
  function MergeTimer(t: TimerState, patch: TimerPatch): (r: TimerState)
    ensures patch.startTime.Present? ==> r.startTime == patch.startTime.value
    ensures patch.duration.Present? ==> r.duration == patch.duration.value
    ensures patch.endTime.Present? ==> r.endTime == patch.endTime.value
    ensures patch.timeLeft.Present? ==> r.timeLeft == patch.timeLeft.value
    ensures patch.startTime.Absent? ==> r.startTime == t.startTime
    ensures patch.duration.Absent? ==> r.duration == t.duration
    ensures patch.endTime.Absent? ==> r.endTime == t.endTime
    ensures patch.timeLeft.Absent? ==> r.timeLeft == t.timeLeft
  {
    TimerState(Merge(t.startTime, patch.startTime), Merge(t.duration, patch.duration),
               Merge(t.endTime, patch.endTime), Merge(t.timeLeft, patch.timeLeft))
  }

  /** Merging the same patch twice is merging it once; the empty patch changes nothing. */
  lemma MergeTimerIdempotent(t: TimerState, patch: TimerPatch)
    ensures MergeTimer(MergeTimer(t, patch), patch) == MergeTimer(t, patch)
    ensures MergeTimer(t, TimerPatch(Absent, Absent, Absent, Absent)) == t
  {
  }

  /**
   * The `timer:update` listener: the patch is merged, then `timeLeft` is the
   * patch's own if truthy, else `endTime - now` if the patch has a truthy
   * end time, else null.
   */
  function OnTimerUpdate(t: TimerState, data: TimerPatch, now: int): (r: TimerState)
    ensures r.startTime == MergeTimer(t, data).startTime
    ensures r.duration == MergeTimer(t, data).duration
    ensures r.endTime == MergeTimer(t, data).endTime
    ensures FieldTruthy(data.timeLeft) ==> r.timeLeft == data.timeLeft.value
    ensures !FieldTruthy(data.timeLeft) && FieldTruthy(data.endTime) ==> r.timeLeft == Some(data.endTime.value.value - now as real)
    ensures !FieldTruthy(data.timeLeft) && !FieldTruthy(data.endTime) ==> r.timeLeft == None
  {
    MergeTimer(t, data).(timeLeft :=
      if FieldTruthy(data.timeLeft) then data.timeLeft.value
      else if FieldTruthy(data.endTime) then Some(data.endTime.value.value - now as real)
      else None)
  }

  /**
   * The timer part of the `state:sync` listener: the server's three fields
   * replace the client's, and `timeLeft` is derived from the end time.
   */
  function OnStateSyncTimer(t: TimerState, server: ServerTimer, now: int): (r: TimerState)
    ensures r.startTime == server.startTime && r.duration == server.duration && r.endTime == server.endTime
    ensures r.timeLeft == if Truthy(server.endTime) then Some(server.endTime.value - now as real) else None
  {
    TimerState(server.startTime, server.duration, server.endTime,
               if Truthy(server.endTime) then Some(server.endTime.value - now as real) else None)
  }

  /** The time left that `getFormattedTimeLeft` formats. */
  function EffectiveTimeLeft(t: TimerState, now: int): real {
    if Truthy(t.timeLeft) then t.timeLeft.value
    else if Truthy(t.endTime) then t.endTime.value - now as real
    else 0.0
  }

  /** Whole minutes of a positive time: `Math.floor(ms / 60000)`. */
  function WholeMinutes(ms: real): (m: nat)
    requires ms > 0.0
    ensures (m * 60000) as real <= ms < ((m + 1) * 60000) as real
  {
    (ms / 60000.0).Floor
  }

  /** Whole seconds past the minute: `Math.floor((ms % 60000) / 1000)`. */
  function WholeSeconds(ms: real): (s: nat)
    requires ms > 0.0
    ensures s < 60
    ensures (WholeMinutes(ms) * 60000 + s * 1000) as real <= ms < (WholeMinutes(ms) * 60000 + s * 1000 + 1000) as real
  {
    var rest := ms - (WholeMinutes(ms) * 60000) as real;
    (rest / 1000.0).Floor
  }

  /** `MM:SS` of a positive time, each part padded to two digits. */
  function ClockText(ms: real): (c: string)
    requires ms > 0.0
  {
    Pad2(NatToString(WholeMinutes(ms))) + ":" + Pad2(NatToString(WholeSeconds(ms)))
  }

  /** `getFormattedTimeLeft`, applied to the store's timer. */
  function FormatTimeLeft(t: TimerState, now: int): (text: string)
    ensures !Truthy(t.timeLeft) && !Truthy(t.endTime) ==> text == ""
    ensures (Truthy(t.timeLeft) || Truthy(t.endTime)) && EffectiveTimeLeft(t, now) <= 0.0 ==> text == "00:00"
    ensures (Truthy(t.timeLeft) || Truthy(t.endTime)) && EffectiveTimeLeft(t, now) > 0.0 ==>
              text == ClockText(EffectiveTimeLeft(t, now))
  {
    if !Truthy(t.timeLeft) && !Truthy(t.endTime) then ""
    else
      var timeLeft := EffectiveTimeLeft(t, now);
      if timeLeft <= 0.0 then "00:00" else ClockText(timeLeft)
  }

  lemma NatToStringBelow100(n: nat)
    requires n < 100
    ensures |NatToString(n)| <= 2
  {
  }

  /**
   * The clock text reads back: the digits before the colon count whole
   * minutes and the two after it whole seconds (below 60), and together they
   * are the time rounded down to the second.
   */
  lemma ClockTextReadsBack(ms: real)
    requires ms > 0.0
    ensures var text := ClockText(ms);
            var k := |text| - 3;
            && |text| >= 5 && text[k] == ':'
            && AllDigits(text[..k]) && AllDigits(text[k + 1..])
            && var m := DigitsValue(text[..k]);
               var s := DigitsValue(text[k + 1..]);
               && s < 60
               && (m * 60000 + s * 1000) as real <= ms < (m * 60000 + s * 1000 + 1000) as real
  {
    var m, s := WholeMinutes(ms), WholeSeconds(ms);
    var mm, ss := Pad2(NatToString(m)), Pad2(NatToString(s));
    assert |ss| == 2 by {
      NatToStringBelow100(s);
    }
    assert AllDigits(mm) && DigitsValue(mm) == m by {
      Pad2Value(NatToString(m));
      NatToStringRoundTrip(m);
    }
    assert AllDigits(ss) && DigitsValue(ss) == s by {
      Pad2Value(NatToString(s));
      NatToStringRoundTrip(s);
    }
    assert ClockText(ms) == mm + ":" + ss;
    ColonSplit(mm, ss, m, s);
  }

  /** The two parts of `mm:ss` are cut back out around the third character from the end. */
  lemma ColonSplit(mm: string, ss: string, m: nat, s: nat)
    requires |ss| == 2 && AllDigits(mm) && AllDigits(ss) && DigitsValue(mm) == m && DigitsValue(ss) == s
    ensures var text := mm + ":" + ss;
            var k := |text| - 3;
            && |text| >= 3 && text[k] == ':' && AllDigits(text[..k]) && AllDigits(text[k + 1..])
            && DigitsValue(text[..k]) == m && DigitsValue(text[k + 1..]) == s
  {
    var text := mm + ":" + ss;
    assert text[..|mm|] == mm && text[|mm| + 1..] == ss;
  }

  class GameStore {
    var gamePhase: Phase
    var timer: TimerState
    var isInitialized: bool

    constructor ()
      ensures gamePhase == Lobby && timer == NullTimer && !isInitialized
    {
      gamePhase, timer, isInitialized := Lobby, NullTimer, false;
    }

    /** `setGamePhase`, and the `game:state:change` listener. */
    method SetGamePhase(phase: Phase)
      modifies this
      ensures gamePhase == phase && timer == old(timer) && isInitialized == old(isInitialized)
    {
      gamePhase := phase;
    }

    method SetTimer(patch: TimerPatch)
      modifies this
      ensures timer == MergeTimer(old(timer), patch)
      ensures gamePhase == old(gamePhase) && isInitialized == old(isInitialized)
    {
      timer := MergeTimer(timer, patch);
    }

    /** `resetTimer`, and the `timer:end` listener. */
    method ResetTimer()
      modifies this
      ensures timer == NullTimer
      ensures gamePhase == old(gamePhase) && isInitialized == old(isInitialized)
    {
      timer := NullTimer;
    }

    method HandleTimerUpdate(data: TimerPatch, now: int)
      modifies this
      ensures timer == OnTimerUpdate(old(timer), data, now)
      ensures gamePhase == old(gamePhase) && isInitialized == old(isInitialized)
    {
      timer := OnTimerUpdate(timer, data, now);
    }

    /** The `state:sync` listener: the phase and the timer follow the server's. */
    method HandleStateSync(snapshot: GameSnapshot, now: int)
      modifies this
      ensures gamePhase == snapshot.gamePhase
      ensures timer == OnStateSyncTimer(old(timer), snapshot.timer, now)
      ensures isInitialized == old(isInitialized)
    {
      gamePhase := snapshot.gamePhase;
      timer := OnStateSyncTimer(timer, snapshot.timer, now);
    }

    /** `canModifyCubes`: cubes may change only while the game is ACTIVE. */
    function CanModifyCubes(): (allowed: bool)
      reads this
      ensures allowed <==> gamePhase == Active
    {
      gamePhase == Active
    }
  }
}
