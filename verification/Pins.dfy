/**
 The per-pin state machine shared by output pulses and input captures.
 Every pin record holds `pinFired`, `pinDelay`, `pinReading` and `pinVal`;
 0 in a time field means "not set". The two flows are told apart only by
 `pinReading`: zero for an output pulse, the request time for a capture.
 */
module Pins {
  import opened Effects
  import opened Time

  datatype Pin = Pin(fired: U32, delay: U32, reading: U32, val: U32) {
    /** `pinBusy`: a pulse or capture was started and the pin has not been cleared. */
    predicate Busy() {
      fired != 0 || reading != 0
    }
  }

  /** A pin as the constructor leaves it: no timestamps, level HIGH. */
  const IdlePin: Pin := Pin(0, 0, 0, HIGH)

  /** `clearPin`'s default argument: keep the current output level. */
  const NoChange: int := -511

  /** The level written when a pulse ends: HIGH after LOW, LOW after anything else. */
  function Inverse(val: U32): (r: Level)
    ensures val == LOW ==> r == HIGH
    ensures val != LOW ==> r == LOW
    ensures r != val
  {
    if val == LOW then HIGH else LOW
  }

  /**
   `pulse`: switch the pin to output, write `value` (digitally for HIGH/LOW,
   otherwise as an analog duty) and start the pulse at the tick time `now`.
   `pinReading` is left as it is.
   */
  function Pulse(pins: seq<Pin>, pin: nat, us: U32, value: int, now: U32): (r: Emitted<seq<Pin>>)
    requires pin < |pins|
    ensures |r.value| == |pins|
    ensures r.value[pin] == Pin(now, us, pins[pin].reading, ToU32(value))
    ensures forall j :: 0 <= j < |pins| && j != pin ==> r.value[j] == pins[j]
    ensures |r.events| == 2 && r.events[0] == PinMode(pin, Output)
    ensures value == HIGH || value == LOW ==> r.events[1] == DigitalWrite(pin, value)
    ensures value != HIGH && value != LOW ==> r.events[1] == AnalogWrite(pin, value)
  {
    var write := if value == HIGH || value == LOW then DigitalWrite(pin, value) else AnalogWrite(pin, value);
    Emitted(pins[pin := pins[pin].(fired := now, delay := us, val := ToU32(value))], [PinMode(pin, Output), write])
  }

  /** `pulsems`: `pulse` with the duration given in milliseconds, multiplied by 1000 in 32-bit arithmetic. */
  function PulseMs(pins: seq<Pin>, pin: nat, ms: U32, value: int, now: U32): (r: Emitted<seq<Pin>>)
    requires pin < |pins|
    ensures |r.value| == |pins|
    ensures ms * 1000 < TWO32 ==> r.value[pin].delay == ms * 1000
    ensures r.value[pin] == Pin(now, (ms * 1000) % TWO32, pins[pin].reading, ToU32(value))
    ensures forall j :: 0 <= j < |pins| && j != pin ==> r.value[j] == pins[j]
    ensures |r.events| == 2 && r.events[0] == PinMode(pin, Output)
    ensures value == HIGH || value == LOW ==> r.events[1] == DigitalWrite(pin, value)
    ensures value != HIGH && value != LOW ==> r.events[1] == AnalogWrite(pin, value)
  {
    Pulse(pins, pin, ToU32(ms * 1000), value, now)
  }

  /**
   `pulseIn`: switch the pin to input and start a capture of a pulse at level
   `value`, requested at `now`. `pinFired` and `pinDelay` are left as they are.
   */
  function PulseIn(pins: seq<Pin>, pin: nat, value: int, now: U32): (r: Emitted<seq<Pin>>)
    requires pin < |pins|
    ensures |r.value| == |pins|
    ensures r.value[pin] == Pin(pins[pin].fired, pins[pin].delay, now, ToU32(value))
    ensures forall j :: 0 <= j < |pins| && j != pin ==> r.value[j] == pins[j]
    ensures r.events == [PinMode(pin, Input)]
  {
    Emitted(pins[pin := pins[pin].(reading := now, val := ToU32(value))], [PinMode(pin, Input)])
  }

  /**
   `clearPin`: zero the three timestamps, keep `pinVal`, and write `value` to
   the pin unless it is the `noChange` sentinel.
   */
  function ClearPin(pins: seq<Pin>, pin: nat, value: int): (r: Emitted<seq<Pin>>)
    requires pin < |pins|
    ensures |r.value| == |pins| && !r.value[pin].Busy()
    ensures r.value[pin] == Pin(0, 0, 0, pins[pin].val)
    ensures forall j :: 0 <= j < |pins| && j != pin ==> r.value[j] == pins[j]
    ensures value == NoChange ==> r.events == []
    ensures value != NoChange ==> r.events == [DigitalWrite(pin, value)]
  {
    var cleared := pins[pin := pins[pin].(reading := 0, fired := 0, delay := 0)];
    if value != NoChange then Emitted(cleared, [DigitalWrite(pin, value)]) else Emitted(cleared, [])
  }

  /** An output pulse (not a capture) whose duration has elapsed by `timediff`. */
  predicate ReleaseDue(p: Pin, now: U32) {
    p.fired != 0 && p.reading == 0 && TimeDiff(p.fired, 0, now) >= p.delay
  }

  /**
   One pass of `loopPins` over pin `i`, where `read` is what `digitalRead(i)`
   returns during this tick (it is only consulted for a capture).
   */
  function LoopPin(p: Pin, i: nat, read: Level, now: U32): (r: Emitted<Pin>)
    ensures !p.Busy() ==> r == Emitted(p, [])
    ensures ReleaseDue(p, now) ==>
      r == Emitted(p.(fired := 0, delay := 0), [DigitalWrite(i, Inverse(p.val))]) && !r.value.Busy()
    ensures !ReleaseDue(p, now) ==> r.events == []
    ensures r.value.reading == p.reading && r.value.val == p.val
    ensures p.reading == 0 && !ReleaseDue(p, now) ==> r.value == p
    ensures p.reading != 0 && p.fired == 0 ==>
      r.value == (if read == p.val then p.(fired := now) else p)
    ensures p.reading != 0 && p.fired != 0 ==>
      r.value == (if read == Inverse(p.val) then p.(delay := now) else p)
  {
    if p.fired == 0 && p.reading == 0 then Emitted(p, [])
    else
      var notVal := Inverse(p.val);
      if p.reading == 0 && TimeDiff(p.fired, 0, now) >= p.delay then
        Emitted(p.(fired := 0, delay := 0), [DigitalWrite(i, notVal)])
      else if p.reading > 0 then
        if p.fired == 0 && read == p.val then Emitted(p.(fired := now), [])
        else if p.fired > 0 && read == notVal then Emitted(p.(delay := now), [])
        else Emitted(p, [])
      else Emitted(p, [])
  }

  /** Every write in `events` releases a pin from `lo` on whose pulse has ended, to the inverse level. */
  predicate OnlyDueReleased(events: seq<Event>, pins: seq<Pin>, now: U32, lo: nat) {
    forall k :: 0 <= k < |events| ==>
      lo <= events[k].Subject() < |pins| && ReleaseDue(pins[events[k].Subject()], now)
      && events[k] == DigitalWrite(events[k].Subject(), Inverse(pins[events[k].Subject()].val))
  }

  /** Every pin from `lo` on whose pulse has ended has its write in `events`. */
  predicate AllDueReleased(events: seq<Event>, pins: seq<Pin>, now: U32, lo: nat) {
    forall j :: lo <= j < |pins| && ReleaseDue(pins[j], now) ==>
      exists k :: 0 <= k < |events| && events[k].Subject() == j
  }

  /**
   The writes of one `loopPins` pass from index `lo` on: the inverse level to
   each pin whose pulse has ended, once, in ascending pin order.
   */
  predicate ReleasesDue(events: seq<Event>, pins: seq<Pin>, now: U32, lo: nat) {
    Ascending(events) && OnlyDueReleased(events, pins, now, lo) && AllDueReleased(events, pins, now, lo)
  }

  /** `loopPins` from index `i` on; `levels[j]` is what pin `j` reads this tick. */
  function LoopPinsFrom(pins: seq<Pin>, levels: seq<Level>, now: U32, i: nat): (r: Emitted<seq<Pin>>)
    requires |levels| == |pins| && i <= |pins|
    ensures |r.value| == |pins|
    ensures forall j :: 0 <= j < i ==> r.value[j] == pins[j]
    ensures forall j :: i <= j < |pins| ==> r.value[j] == LoopPin(pins[j], j, levels[j], now).value
    ensures ReleasesDue(r.events, pins, now, i)
    decreases |pins| - i
  {
    if i == |pins| then Emitted(pins, [])
    else
      var step := LoopPin(pins[i], i, levels[i], now);
      var rest := LoopPinsFrom(pins[i := step.value], levels, now, i + 1);
      ReleasesDueCons(step.events, rest.events, pins, step.value, levels[i], now, i);
      Emitted(rest.value, step.events + rest.events)
  }

  lemma ReleasesDueCons(
    first: seq<Event>, rest: seq<Event>, pins: seq<Pin>, p: Pin, read: Level, now: U32, i: nat)
    requires i < |pins| && LoopPin(pins[i], i, read, now) == Emitted(p, first)
    requires ReleasesDue(rest, pins[i := p], now, i + 1)
    ensures ReleasesDue(first + rest, pins, now, i)
  {
    var updated := pins[i := p];
    assert forall j :: i < j < |pins| ==> updated[j] == pins[j];
    ConsAscending(first, rest, updated, now, i);
    ConsOnlyDue(first, rest, pins, updated, now, i);
    ConsAllDue(first, rest, pins, updated, now, i);
  }

  lemma ConsAscending(first: seq<Event>, rest: seq<Event>, updated: seq<Pin>, now: U32, i: nat)
    requires |first| <= 1 && (first != [] ==> first[0].Subject() == i)
    requires Ascending(rest) && OnlyDueReleased(rest, updated, now, i + 1)
    ensures Ascending(first + rest)
  {
  }

  lemma ConsOnlyDue(first: seq<Event>, rest: seq<Event>, pins: seq<Pin>, updated: seq<Pin>, now: U32, i: nat)
    requires i < |pins| && |updated| == |pins|
    requires first == [] || (ReleaseDue(pins[i], now) && first == [DigitalWrite(i, Inverse(pins[i].val))])
    requires forall j :: i < j < |pins| ==> updated[j] == pins[j]
    requires OnlyDueReleased(rest, updated, now, i + 1)
    ensures OnlyDueReleased(first + rest, pins, now, i)
  {
  }

  lemma ConsAllDue(first: seq<Event>, rest: seq<Event>, pins: seq<Pin>, updated: seq<Pin>, now: U32, i: nat)
    requires i < |pins| && |updated| == |pins|
    requires ReleaseDue(pins[i], now) ==> first == [DigitalWrite(i, Inverse(pins[i].val))]
    requires forall j :: i < j < |pins| ==> updated[j] == pins[j]
    requires AllDueReleased(rest, updated, now, i + 1)
    ensures AllDueReleased(first + rest, pins, now, i)
  {
    var events := first + rest;
    forall j | i <= j < |pins| && ReleaseDue(pins[j], now)
      ensures exists k :: 0 <= k < |events| && events[k].Subject() == j
    {
      if j == i {
        assert events[0].Subject() == i;
      } else {
        assert ReleaseDue(updated[j], now);
        var k :| 0 <= k < |rest| && rest[k].Subject() == j;
        assert events[|first| + k] == rest[k];
      }
    }
  }

  /**
   `loopPins`: every pin is stepped with what it reads this tick; finished
   pulses are released with one write each, in ascending pin order.
   */
  function LoopPins(pins: seq<Pin>, levels: seq<Level>, now: U32): (r: Emitted<seq<Pin>>)
    requires |levels| == |pins|
    ensures |r.value| == |pins|
    ensures forall j :: 0 <= j < |pins| ==> r.value[j] == LoopPin(pins[j], j, levels[j], now).value
    ensures ReleasesDue(r.events, pins, now, 0)
  {
    LoopPinsFrom(pins, levels, now, 0)
  }

  /**
   A pulse started at a nonzero tick time on a pin that is not capturing ends at
   the first scan where its duration has elapsed: the inverse level is written
   (LOW after HIGH, HIGH after LOW) and the pin is no longer busy.
   */
  lemma PulseReleasedAfterDuration(pins: seq<Pin>, pin: nat, us: U32, value: int, at: U32, levels: seq<Level>, now: U32)
    requires pin < |pins| && |levels| == |pins| && pins[pin].reading == 0 && at != 0
    requires TimeDiff(at, 0, now) >= us
    ensures var scan := LoopPins(Pulse(pins, pin, us, value, at).value, levels, now);
      && !scan.value[pin].Busy()
      && DigitalWrite(pin, Inverse(ToU32(value))) in scan.events
      && (value == HIGH ==> DigitalWrite(pin, LOW) in scan.events)
      && (value == LOW ==> DigitalWrite(pin, HIGH) in scan.events)
  {
  }

  /** Before its duration has elapsed a pulse stays busy and nothing is written to its pin. */
  lemma PulseHeldBeforeDuration(pins: seq<Pin>, pin: nat, us: U32, value: int, at: U32, levels: seq<Level>, now: U32)
    requires pin < |pins| && |levels| == |pins| && pins[pin].reading == 0 && at != 0
    requires TimeDiff(at, 0, now) < us
    ensures var scan := LoopPins(Pulse(pins, pin, us, value, at).value, levels, now);
      scan.value[pin].Busy() && NoWriteTo(scan.events, pin)
  {
  }

  /** A scan neither changes nor writes to an idle pin. */
  lemma IdlePinUntouched(pins: seq<Pin>, levels: seq<Level>, now: U32, pin: nat)
    requires pin < |pins| && |levels| == |pins| && !pins[pin].Busy()
    ensures LoopPins(pins, levels, now).value[pin] == pins[pin]
    ensures NoWriteTo(LoopPins(pins, levels, now).events, pin)
  {
  }

  /**
   A pulse issued when the tick time reads 0 stores the "unset" stamp: the pin
   is not busy, and no later scan ends the pulse by writing to it.
   */
  lemma PulseAtTimeZeroNeverReleased(pins: seq<Pin>, pin: nat, us: U32, value: int, levels: seq<Level>, now: U32)
    requires pin < |pins| && |levels| == |pins| && pins[pin].reading == 0
    ensures var pulsed := Pulse(pins, pin, us, value, 0).value;
      !pulsed[pin].Busy() && NoWriteTo(LoopPins(pulsed, levels, now).events, pin)
  {
  }

  /** A pulse on a pin whose capture was not cleared is treated as a capture: it is never ended by a write. */
  lemma PulseOnCapturingPinNotReleased(pins: seq<Pin>, pin: nat, us: U32, value: int, at: U32, levels: seq<Level>, now: U32)
    requires pin < |pins| && |levels| == |pins| && pins[pin].reading != 0
    ensures var scan := LoopPins(Pulse(pins, pin, us, value, at).value, levels, now);
      scan.value[pin].Busy() && NoWriteTo(scan.events, pin)
  {
  }

  /**
   `pulseIn` keeps `pinFired`: on a pin still mid-pulse the capture starts
   with its start edge already recorded: the next scan records no new one,
   writes nothing, and moves `pinDelay` when it reads the inverse level.
   */
  lemma PulseInOnPulsingPinSkipsStartEdge(pins: seq<Pin>, pin: nat, value: int, at: U32, read: Level, now: U32)
    requires pin < |pins| && pins[pin].fired != 0 && at != 0
    ensures var p := PulseIn(pins, pin, value, at).value[pin];
      var step := LoopPin(p, pin, read, now);
      && step.events == [] && step.value.fired == pins[pin].fired
      && (read == Inverse(ToU32(value)) ==> step.value.delay == now)
      && (read != Inverse(ToU32(value)) ==> step.value.delay == pins[pin].delay)
  {
  }

  /** Clearing a pin mid-pulse suppresses the pending release: the next scan leaves the pin alone. */
  lemma ClearPinSuppressesRelease(pins: seq<Pin>, pin: nat, value: int, levels: seq<Level>, now: U32)
    requires pin < |pins| && |levels| == |pins|
    ensures var cleared := ClearPin(pins, pin, value).value;
      var scan := LoopPins(cleared, levels, now);
      scan.value[pin] == cleared[pin] && NoWriteTo(scan.events, pin)
  {
  }

  /**
   A capture of a HIGH pulse requested at `t0` on a cleared pin, where the input
   is seen HIGH at `t0 + 20` and LOW again at `t0 + 50`: the request-to-edge time
   `pinFired - pinReading` is 20, `pinDelay - pinFired` is 30, and the pin is
   still busy.
   */
  lemma CaptureMeasuresPulse(pins: seq<Pin>, pin: nat, t0: U32)
    requires pin < |pins| && pins[pin].fired == 0
    requires 0 < t0 && t0 + 50 < TWO32
    ensures var p0 := PulseIn(pins, pin, HIGH, t0).value[pin];
      var p1 := LoopPin(p0, pin, HIGH, t0 + 20).value;
      var p2 := LoopPin(p1, pin, LOW, t0 + 50).value;
      p2.fired - p2.reading == 20 && p2.delay - p2.fired == 30 && p2.Busy()
  {
  }

  /**
   Once the start edge of a capture is seen, every later tick that reads the
   inverse level overwrites `pinDelay`: a capture of a pulse that ended at
   `t0 + 50` reports a width of 40 when the pin is still scanned at `t0 + 60`.
   */
  lemma CaptureEndKeepsMoving(pins: seq<Pin>, pin: nat, t0: U32)
    requires pin < |pins| && pins[pin].fired == 0
    requires 0 < t0 && t0 + 60 < TWO32
    ensures var p0 := PulseIn(pins, pin, HIGH, t0).value[pin];
      var p1 := LoopPin(p0, pin, HIGH, t0 + 20).value;
      var p2 := LoopPin(p1, pin, LOW, t0 + 50).value;
      var p3 := LoopPin(p2, pin, LOW, t0 + 60).value;
      p3.delay - p3.fired == 40
  {
  }

  /**
   A pulse of duration `ULONG_MAX` started at a nonzero tick time is never
   ended, because `timediff` from a nonzero start never reaches `ULONG_MAX`.
   */
  lemma MaxDurationPulseNeverReleased(p: Pin, i: nat, read: Level, now: U32)
    requires p.fired != 0 && p.reading == 0 && p.delay == ULONG_MAX
    ensures !ReleaseDue(p, now)
    ensures LoopPin(p, i, read, now) == Emitted(p, [])
  {
  }

  /**
   `pinBusy` across the requests: a pulse or a capture requested at a nonzero
   tick time makes the pin busy, `clearPin` makes it idle, and a scan leaves
   the pin busy exactly when it was busy and its pulse did not end.
   */
  lemma BusyLifecycle(pins: seq<Pin>, pin: nat, us: U32, value: int, now: U32, read: Level)
    requires pin < |pins|
    ensures now != 0 ==> Pulse(pins, pin, us, value, now).value[pin].Busy()
    ensures now != 0 ==> PulseIn(pins, pin, value, now).value[pin].Busy()
    ensures !ClearPin(pins, pin, value).value[pin].Busy()
    ensures LoopPin(pins[pin], pin, read, now).value.Busy() <==> pins[pin].Busy() && !ReleaseDue(pins[pin], now)
  {
  }

  /** The start edge of a capture is recorded once: a scan never moves a nonzero `pinFired` of a capture. */
  lemma CaptureStartRecordedOnce(p: Pin, i: nat, read: Level, now: U32)
    requires p.reading != 0 && p.fired != 0
    ensures LoopPin(p, i, read, now).value.fired == p.fired
  {
  }

  lemma {:induction false} SilentFrom(pins: seq<Pin>, levels: seq<Level>, now: U32, i: nat)
    requires |levels| == |pins| && i <= |pins|
    ensures LoopPinsFrom(pins, levels, now, i).events == [] <==> forall j :: i <= j < |pins| ==> !ReleaseDue(pins[j], now)
    decreases |pins| - i
  {
    if i < |pins| {
      var step := LoopPin(pins[i], i, levels[i], now);
      var updated := pins[i := step.value];
      SilentFrom(updated, levels, now, i + 1);
      assert forall j :: i < j < |pins| ==> updated[j] == pins[j];
    }
  }

  /** A scan writes to no pin exactly when no output pulse has reached its end. */
  lemma ScanSilentIffNothingDue(pins: seq<Pin>, levels: seq<Level>, now: U32)
    requires |levels| == |pins|
    ensures LoopPins(pins, levels, now).events == [] <==> forall j :: 0 <= j < |pins| ==> !ReleaseDue(pins[j], now)
  {
    SilentFrom(pins, levels, now, 0);
  }
}
