/**
 The scheduler object (`asyncclass`) as an explicit state value: the slot
 table, the pin table, the tick time and the last tick's duration (`quantum`).
 `Loop` is one call of `Async.loop()`: it reads the clock once and scans the
 slots before the pins, both against that one reading.
 */
module Scheduler {
  import opened Effects
  import opened Time
  import Slots
  import Pins

  /** Capacities of the two tables (the defaults of `ASYNC_SLOTS` and `ASYNC_PINS`). */
  const ASYNC_SLOTS: nat := 16
  const ASYNC_PINS: nat := 16

  datatype State = State(slots: seq<Slots.Slot>, pins: seq<Pins.Pin>, time: U32, quantum: U32) {
    /** Both tables have their fixed capacity. */
    predicate Valid() {
      |slots| == ASYNC_SLOTS && |pins| == ASYNC_PINS
    }
  }

  /** What one call of `loop` sees of the world: the `micros()` reading and what each pin reads. */
  datatype Tick = Tick(clock: U32, levels: seq<Level>)

  predicate WellFormedTicks(ticks: seq<Tick>) {
    forall k :: 0 <= k < |ticks| ==> |ticks[k].levels| == ASYNC_PINS
  }

  /**
   The constructor, given the `micros()` reading at start-up: every slot free,
   every pin idle at level HIGH, and `time` and `quantum` both set to the reading.
   */
  function Init(clock: U32): (s: State)
    ensures s.Valid() && s.time == clock && s.quantum == clock
    ensures Slots.GetFreeSlot(s.slots) == 0 && Slots.CountFree(s.slots) == ASYNC_SLOTS
    ensures forall i :: 0 <= i < ASYNC_PINS ==> !s.pins[i].Busy() && s.pins[i].val == HIGH
    ensures forall i :: 0 <= i < ASYNC_PINS ==> s.pins[i] == Pins.IdlePin
    ensures forall i :: 0 <= i < ASYNC_SLOTS ==> s.slots[i].IsFree()
  {
    var s := State(seq(ASYNC_SLOTS, _ => Slots.FreeSlot), seq(ASYNC_PINS, _ => Pins.IdlePin), clock, clock);
    Slots.CountFreeAllFree(s.slots);
    s
  }

  /**
   `loop`: `quantum` becomes the modular distance from the previous tick time,
   `time` the new reading; then the slot scan runs, then the pin scan, and all
   handler calls precede all pin writes.
   */
  function Loop(s: State, t: Tick): (r: Emitted<State>)
    requires s.Valid() && |t.levels| == ASYNC_PINS
    ensures r.value.Valid()
    ensures r.value.time == t.clock && (s.time + r.value.quantum) % TWO32 == t.clock
    ensures var slotScan := Slots.LoopSlots(s.slots, t.clock);
      var pinScan := Pins.LoopPins(s.pins, t.levels, t.clock);
      && r.value.slots == slotScan.value && r.value.pins == pinScan.value
      && r.events == slotScan.events + pinScan.events
  {
    var slotScan := Slots.LoopSlots(s.slots, t.clock);
    var pinScan := Pins.LoopPins(s.pins, t.levels, t.clock);
    Emitted(State(slotScan.value, pinScan.value, t.clock, ModDiff(s.time, t.clock)), slotScan.events + pinScan.events)
  }

  /** `pulse` on the object: the pulse starts at the object's tick time `time`. */
  function Pulse(s: State, pin: nat, us: U32, value: int): (r: Emitted<State>)
    requires s.Valid() && pin < ASYNC_PINS
    ensures r.value.Valid() && r.value.slots == s.slots
    ensures r.value.time == s.time && r.value.quantum == s.quantum
    ensures r.value.pins[pin] == Pins.Pin(s.time, us, s.pins[pin].reading, ToU32(value))
    ensures forall j :: 0 <= j < ASYNC_PINS && j != pin ==> r.value.pins[j] == s.pins[j]
    ensures |r.events| == 2 && r.events[0] == PinMode(pin, Output)
    ensures value == HIGH || value == LOW ==> r.events[1] == DigitalWrite(pin, value)
    ensures value != HIGH && value != LOW ==> r.events[1] == AnalogWrite(pin, value)
  {
    var step := Pins.Pulse(s.pins, pin, us, value, s.time);
    Emitted(s.(pins := step.value), step.events)
  }

  /** `pulseIn` on the object: the capture is requested at the object's tick time `time`. */
  function PulseIn(s: State, pin: nat, value: int): (r: Emitted<State>)
    requires s.Valid() && pin < ASYNC_PINS
    ensures r.value.Valid() && r.value.slots == s.slots
    ensures r.value.time == s.time && r.value.quantum == s.quantum
    ensures r.value.pins[pin] == s.pins[pin].(reading := s.time, val := ToU32(value))
    ensures forall j :: 0 <= j < ASYNC_PINS && j != pin ==> r.value.pins[j] == s.pins[j]
    ensures r.events == [PinMode(pin, Input)]
  {
    var step := Pins.PulseIn(s.pins, pin, value, s.time);
    Emitted(s.(pins := step.value), step.events)
  }

  /** `changePeriod` on the object: the waiting window restarts at the object's tick time `time`. */
  function ChangePeriod(s: State, slot: nat, us: U32): (r: State)
    requires s.Valid() && slot < ASYNC_SLOTS
    ensures r.Valid() && r.pins == s.pins && r.time == s.time && r.quantum == s.quantum
    ensures r.slots[slot] == s.slots[slot].(period := us, stamp := s.time)
    ensures forall j :: 0 <= j < ASYNC_SLOTS && j != slot ==> r.slots[j] == s.slots[j]
  {
    s.(slots := Slots.ChangePeriod(s.slots, slot, us, s.time))
  }

  /**
   A pulse requested through the object between ticks ends on a later
   tick whose reading is at least its duration past the request, without a
   wrap: the pin is written back to the inverse level and is no longer busy.
   */
  lemma PulseEndsOnTimelyTick(s: State, pin: nat, us: U32, value: int, t: Tick)
    requires s.Valid() && pin < ASYNC_PINS && |t.levels| == ASYNC_PINS
    requires s.time != 0 && s.pins[pin].reading == 0
    requires s.time <= t.clock && t.clock - s.time >= us
    ensures var next := Loop(Pulse(s, pin, us, value).value, t);
      !next.value.pins[pin].Busy() && DigitalWrite(pin, Pins.Inverse(ToU32(value))) in next.events
  {
  }

  /** Within one tick every handler call comes before every pin write: slots are scanned before pins. */
  lemma HandlersBeforePinWrites(s: State, t: Tick)
    requires s.Valid() && |t.levels| == ASYNC_PINS
    ensures var events := Loop(s, t).events;
      forall k, l :: 0 <= k < l < |events| && events[l].Invoke? ==> events[k].Invoke?
    ensures var events := Loop(s, t).events;
      forall k, l :: 0 <= k < l < |events| && events[k].DigitalWrite? ==> events[l].DigitalWrite?
  {
  }

  /** Successive calls of `loop`, with no other calls in between; the events of all ticks in order. */
  function Run(s: State, ticks: seq<Tick>): (r: Emitted<State>)
    requires s.Valid() && WellFormedTicks(ticks)
    ensures r.value.Valid()
    ensures ticks != [] ==> r.value.time == ticks[|ticks| - 1].clock
    ensures ticks == [] ==> r == Emitted(s, [])
    decreases |ticks|
  {
    if ticks == [] then Emitted(s, [])
    else
      var first := Loop(s, ticks[0]);
      var rest := Run(first.value, ticks[1..]);
      Emitted(rest.value, first.events + rest.events)
  }

  /** `quantum` is the true duration of the tick, even when the counter wrapped during it. */
  lemma QuantumIsTickDuration(s: State, t: Tick, d: nat)
    requires s.Valid() && |t.levels| == ASYNC_PINS
    requires d < TWO32 && t.clock == ToU32(s.time + d)
    ensures Loop(s, t).value.quantum == d
  {
  }

  /** A freshly constructed scheduler does nothing on its first tick. */
  lemma FirstTickIsQuiet(clock: U32, t: Tick)
    requires |t.levels| == ASYNC_PINS
    ensures Loop(Init(clock), t).events == []
  {
    var s := Init(clock);
    var slotScan := Slots.LoopSlots(s.slots, t.clock);
    var pinScan := Pins.LoopPins(s.pins, t.levels, t.clock);
    Slots.ScanSilentIffNothingDue(s.slots, t.clock);
    Pins.ScanSilentIffNothingDue(s.pins, t.levels, t.clock);
  }

  /** The pin scan only writes: it never invokes a handler. */
  lemma PinScanInvokesNothing(pins: seq<Pins.Pin>, levels: seq<Level>, now: U32, i: nat)
    requires |levels| == |pins|
    ensures NoInvokeOf(Pins.LoopPins(pins, levels, now).events, i)
  {
  }

  lemma NoInvokeOfAppend(a: seq<Event>, b: seq<Event>, i: nat)
    requires NoInvokeOf(a, i) && NoInvokeOf(b, i)
    ensures NoInvokeOf(a + b, i)
  {
  }

  lemma NoWriteToAppend(a: seq<Event>, b: seq<Event>, i: nat)
    requires NoWriteTo(a, i) && NoWriteTo(b, i)
    ensures NoWriteTo(a + b, i)
  {
  }

  /**
   A free slot stays free over any run of ticks and its index is never invoked;
   in particular a timeout cleared with `clearSlot` before it ran never runs.
   */
  lemma {:induction false} FreeSlotNeverRuns(s: State, ticks: seq<Tick>, i: nat)
    requires s.Valid() && WellFormedTicks(ticks) && i < ASYNC_SLOTS && s.slots[i].IsFree()
    ensures Run(s, ticks).value.slots[i].IsFree()
    ensures NoInvokeOf(Run(s, ticks).events, i)
    decreases |ticks|
  {
    if ticks != [] {
      var first := Loop(s, ticks[0]);
      Slots.NotDueSlotUntouched(s.slots, ticks[0].clock, i);
      PinScanInvokesNothing(s.pins, ticks[0].levels, ticks[0].clock, i);
      NoInvokeOfAppend(Slots.LoopSlots(s.slots, ticks[0].clock).events,
                       Pins.LoopPins(s.pins, ticks[0].levels, ticks[0].clock).events, i);
      FreeSlotNeverRuns(first.value, ticks[1..], i);
      NoInvokeOfAppend(first.events, Run(first.value, ticks[1..]).events, i);
    }
  }

  /** `clearSlot` on a pending timeout: no later run of ticks invokes it. */
  lemma ClearedTimeoutNeverRuns(s: State, slot: nat, ticks: seq<Tick>)
    requires s.Valid() && WellFormedTicks(ticks) && slot < ASYNC_SLOTS
    ensures NoInvokeOf(Run(s.(slots := Slots.ClearSlot(s.slots, slot)), ticks).events, slot)
  {
    FreeSlotNeverRuns(s.(slots := Slots.ClearSlot(s.slots, slot)), ticks, slot);
  }

  /** A timeout's handler runs at most once over any run of ticks. */
  lemma {:induction false} TimeoutRunsAtMostOnce(s: State, ticks: seq<Tick>, i: nat)
    requires s.Valid() && WellFormedTicks(ticks) && i < ASYNC_SLOTS && !s.slots[i].repeat
    ensures InvokeCount(Run(s, ticks).events, i) <= 1
    decreases |ticks|
  {
    if ticks != [] {
      var t := ticks[0];
      var first := Loop(s, t);
      var rest := Run(first.value, ticks[1..]);
      var slotEvents := Slots.LoopSlots(s.slots, t.clock).events;
      var pinEvents := Pins.LoopPins(s.pins, t.levels, t.clock).events;
      PinScanInvokesNothing(s.pins, t.levels, t.clock, i);
      InvokeCountAppend(slotEvents, pinEvents, i);
      InvokeCountAppend(first.events, rest.events, i);
      if Slots.Due(s.slots[i], t.clock) {
        Slots.DueTimeoutRunsOnceAndFrees(s.slots, t.clock, i);
        FreeSlotNeverRuns(first.value, ticks[1..], i);
      } else {
        Slots.NotDueSlotUntouched(s.slots, t.clock, i);
        TimeoutRunsAtMostOnce(first.value, ticks[1..], i);
      }
    }
  }

  /** A capture is never finished by the scans: its request time stays and the pin stays busy until `clearPin`. */
  lemma {:induction false} CaptureStaysBusy(s: State, ticks: seq<Tick>, pin: nat)
    requires s.Valid() && WellFormedTicks(ticks) && pin < ASYNC_PINS && s.pins[pin].reading != 0
    ensures Run(s, ticks).value.pins[pin].reading == s.pins[pin].reading
    ensures Run(s, ticks).value.pins[pin].Busy()
    decreases |ticks|
  {
    if ticks != [] {
      CaptureStaysBusy(Loop(s, ticks[0]).value, ticks[1..], pin);
    }
  }

  /** An idle pin is left as it is and never written over any run of ticks. */
  lemma {:induction false} IdlePinStaysIdle(s: State, ticks: seq<Tick>, pin: nat)
    requires s.Valid() && WellFormedTicks(ticks) && pin < ASYNC_PINS && !s.pins[pin].Busy()
    ensures Run(s, ticks).value.pins[pin] == s.pins[pin]
    ensures NoWriteTo(Run(s, ticks).events, pin)
    decreases |ticks|
  {
    if ticks != [] {
      var t := ticks[0];
      var first := Loop(s, t);
      Pins.IdlePinUntouched(s.pins, t.levels, t.clock, pin);
      var slotEvents := Slots.LoopSlots(s.slots, t.clock).events;
      assert NoWriteTo(slotEvents, pin) by {
        forall k | 0 <= k < |slotEvents| ensures slotEvents[k].Invoke? {
          assert slotEvents[k] == Slots.InvokeOf(s.slots, slotEvents[k].Subject());
        }
      }
      NoWriteToAppend(slotEvents, Pins.LoopPins(s.pins, t.levels, t.clock).events, pin);
      IdlePinStaysIdle(first.value, ticks[1..], pin);
      NoWriteToAppend(first.events, Run(first.value, ticks[1..]).events, pin);
    }
  }
}
