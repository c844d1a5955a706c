# asyncclass — a Dafny model of a cooperative Arduino scheduler

`asyncclass` (the `Async` object) lets an Arduino sketch run periodic and
one-shot callbacks and timed pin pulses and pulse captures without blocking.
The sketch calls `Async.loop()` once per iteration of its own `loop()`. Each
call reads `micros()` once, stores the previous tick's duration in `quantum`,
and then scans two fixed tables in that order:

- the **slot table**: `ASYNC_SLOTS` (16) entries. Each holds a handler, an
  opaque context, a period, the stamp of the last firing and a repeat flag.
  A slot is free exactly when its handler is the `nullfn` sentinel.
- the **pin table**: `ASYNC_PINS` (16) entries. Each holds `pinFired`,
  `pinDelay`, `pinReading` and `pinVal`. An output pulse (`pulse`) and an input
  capture (`pulseIn`) share these fields.

The time arithmetic is done on the 32-bit `unsigned long` counter, which
wraps modulo 2^32.

The model is functional. The object is an immutable `Scheduler.State`: two
fixed-length sequences plus `time` and `quantum`. Every operation is a pure
function. A function that touches hardware returns its result together with a
log of `Effects.Event`s: `PinMode`, `DigitalWrite`, `AnalogWrite`, and
`Invoke` for a handler call. The inputs it would have read are explicit
parameters: `micros()` arrives as the `clock` of a `Scheduler.Tick`, and the
`digitalRead` result of every pin arrives as that tick's `levels`. Operations
that read the object's `time` field take it as a parameter named `now` or `at`:
`pulse`, `pulseIn`, `changePeriod`, and the scans. `Scheduler.Pulse`,
`Scheduler.PulseIn` and `Scheduler.ChangePeriod` are the same requests on the
whole state, passing its `time`.

Files, one module each:

- `Effects.dfy`: handler identities, contexts, levels and the event log.
- `Time.dfy`: 32-bit time, `timediff`, and modular subtraction.
- `Slots.dfy`: the slot table and its operations, `getFreeSlot`, `setSlot` and its four wrappers, `clearSlot`, `changePeriod`, `loopSlots`.
- `Pins.dfy`: the pin table and its operations, `pulse`, `pulsems`, `pulseIn`, `pinBusy`, `clearPin`, `loopPins`.
- `Scheduler.dfy`: the constructor, `loop`, the requests that read `time`, and runs of successive ticks.

## Where the model follows the code rather than the documentation

- `timediff` across a wrap returns `ULONG_MAX - from + to`. That is one less
  than the distance the counter travelled (`Time.TimeDiff`,
  `Time.TimeDiffOfDistance`). A `to` of 0 is replaced by the tick time. By
  contrast, `quantum` uses plain unsigned subtraction, which is exact
  (`Scheduler.QuantumIsTickDuration`).
- Registration resets the stamp to 0, not to the current time. A new slot
  therefore fires on the first tick whose clock reading is at least its
  period, measured from the clock's origin and not from the registration
  (`Slots.RegisteredSlotDueFromClockOrigin`).
- When a pulse ends, the code writes HIGH only if `pinVal` is LOW, and LOW
  otherwise. An analog pulse therefore also ends at LOW (`Pins.Inverse`).
- After the start edge of a capture, every tick that reads the inverse level
  overwrites `pinDelay`. So `pinDelay - pinFired` keeps growing while the line
  stays at the inverse level; it is not the pulse width
  (`Pins.CaptureEndKeepsMoving`).
- 0 doubles as "not set". A `pulse` issued when the tick time is 0 is never
  ended (`Pins.PulseAtTimeZeroNeverReleased`).
- `pulse` does not reset `pinReading`. A pulse on a pin whose capture was not
  cleared is therefore treated as a capture and is never ended
  (`Pins.PulseOnCapturingPinNotReleased`).
- Symmetrically, `pulseIn` does not reset `pinFired` or `pinDelay`. A capture
  requested on a pin still mid-pulse therefore starts with its start edge
  already recorded and goes straight to updating `pinDelay`
  (`Pins.PulseInOnPulsingPinSkipsStartEdge`).
- The context-taking overloads, `changePeriod` and the defaulted `to` of
  `timediff` exist only in Async.cpp. They are modelled as Async.cpp
  defines them. A registration without a context stores NULL (0).
- The global object is zero-initialised static storage. So before the
  constructor runs, every period, stamp, repeat flag and context is already 0,
  and `Scheduler.Init` starts every slot from those values.
- Because of the one-short wrap branch, `timediff` from a nonzero start never
  reaches `ULONG_MAX` (`Time.TimeDiffNeverMax`). A `pulse` of duration
  `ULONG_MAX` is therefore never ended (`Pins.MaxDurationPulseNeverReleased`),
  and a periodic slot with period `ULONG_MAX` never fires again once it has
  fired at a nonzero time (`Slots.MaxPeriodNeverDueAgain`).

## Model

| member | source | states |
|---|---|---|
| Time.ToU32 | Async.cpp:112-114 | storing an `int` into an `unsigned long` keeps values in range and otherwise reduces modulo 2^32 |
| Time.ModDiff | Async.cpp:42 | unsigned subtraction gives the forward distance: adding it to `from` modulo 2^32 lands on `to` |
| Time.ModDiffRecoversDistance | Async.cpp:42 | any distance shorter than a full turn of the counter is recovered exactly, wrapped or not |
| Time.TimeDiff | Async.cpp:48-52 | `timediff` equals the modular distance when the target is not below `from`, and is one less when the counter wrapped; a 0 target means the tick time |
| Time.TimeDiffOfDistance | Async.cpp:48-52 | `timediff` across a distance `d` reports `d` without a wrap and `d - 1` with a wrap |
| Time.TimeDiffNeverMax | Async.cpp:48-52 | from a nonzero start `timediff` is always below `ULONG_MAX`, wrapped or not |
| Effects.InvokeCount | Async.cpp:19 | counts the calls of one slot's handler; 0 exactly when the log has no call of it |
| Slots.FirstFreeFrom | Async.cpp:99-102 | scanning upwards from `i` gives the first free index, or -1 exactly when every slot from `i` on is occupied |
| Slots.GetFreeSlot | Async.cpp:99-102 | `getFreeSlot` returns the lowest free index, or -1 exactly when all slots are taken |
| Slots.SetSlot | Async.cpp:54-63 | with -1 it takes the lowest free slot or fails with -1 and changes nothing; otherwise it writes handler, context, period, stamp 0 and repeat flag at that index only, overwriting an occupied slot |
| Slots.Interval | Async.cpp:65-70 | `interval` with an index writes that slot and returns it; with -1 it takes the lowest free slot, or returns -1 and changes nothing exactly when all are taken; the slot gets the handler, context, period, stamp 0 and the repeat flag, and no other slot changes |
| Slots.IntervalMs | Async.cpp:72-77 | `intervalms` registers like `interval` with the period `ms * 1000` reduced modulo 2^32 (exactly `ms * 1000` when it fits), same slot choice, context, stamp 0 and frame |
| Slots.Timeout | Async.cpp:79-84 | `timeout` with an index writes that slot and returns it; with -1 it takes the lowest free slot, or returns -1 and changes nothing exactly when all are taken; the slot gets the handler, context, delay, stamp 0 and no repeat, and no other slot changes |
| Slots.TimeoutMs | Async.cpp:86-91 | `timeoutms` registers like `timeout` with the delay `ms * 1000` reduced modulo 2^32 (exactly `ms * 1000` when it fits), same slot choice, context, stamp 0 and frame |
| Slots.AutoRegistrationTakesOneFreeSlot | Async.h:66-73 | registration without an index succeeds exactly when a slot is free and occupies exactly one more; with all slots taken it fails and the table stays full |
| Slots.RegisteredSlotDueFromClockOrigin | Async.cpp:60 | a freshly registered slot is due exactly when the tick time has reached its period |
| Slots.ClearSlot | Async.cpp:104-106 | only the handler changes, to free; period, stamp, repeat flag, context and every other slot are kept |
| Slots.ClearedSlotIsFound | Async.h:94-105 | after `clearSlot(i)`, `getFreeSlot` returns `i` or a lower index |
| Slots.ClearedSlotNotInvoked | Async.h:94-99 | the scan after `clearSlot(i)` does not invoke slot `i` |
| Slots.ChangePeriod | Async.cpp:93-96 | sets the period and restarts the stamp at the tick time; handler, repeat flag, context and other slots are kept |
| Slots.ChangePeriodRestartsWindow | Async.cpp:93-96 | after `changePeriod` the slot is due exactly when the new period has elapsed since the change, so at once only for period 0 |
| Slots.LoopSlotsFrom | Async.cpp:14-23 | the scan from `i` on fires exactly the due slots, in ascending order, once each, with their own context |
| Slots.LoopSlots | Async.cpp:14-23 | every due slot is stamped with the tick time and invoked once with its context, and a one-shot slot is freed; free and not-due slots are unchanged; calls come in ascending slot order |
| Slots.NotDueSlotUntouched | Async.cpp:16-17 | a free or not-yet-due slot is neither changed nor invoked by the scan |
| Slots.ScanSilentIffNothingDue | Async.cpp:14-23 | the scan invokes nothing exactly when no slot is due |
| Slots.DueTimeoutRunsOnceAndFrees | Async.cpp:17-20 | a due one-shot slot is invoked exactly once in the scan and is free afterwards |
| Slots.ScanNeverOccupies | Async.cpp:14-23 | the scan never occupies a slot: the number of free slots does not drop |
| Slots.IntervalRefiresAfterPeriod | Async.cpp:17-18 | a periodic slot that fired stays occupied and fires again exactly when its period has elapsed since that tick |
| Slots.MaxPeriodNeverDueAgain | Async.cpp:16-17 | a slot with period `ULONG_MAX` stamped at a nonzero time is never due again and the scan leaves it as it is |
| Pins.Inverse | Async.cpp:28 | the release level is HIGH after LOW and LOW after any other value, and always differs from the pulsed value |
| Pins.Pulse | Async.cpp:108-115 | switches the pin to output, writes digitally for HIGH/LOW and as analog otherwise, and records start time, duration and value for that pin only |
| Pins.PulseMs | Async.cpp:117-119 | `pulsems` pulses like `pulse` with the duration `ms * 1000` reduced modulo 2^32: the same mode change and write, start time, value and kept `pinReading`, and no other pin changes |
| Pins.PulseIn | Async.cpp:121-125 | switches the pin to input and records only the request time and the awaited level |
| Pins.ClearPin | Async.cpp:131-134 | zeroes the three timestamps, so the pin is not busy; keeps `pinVal`; writes the given level unless it is `noChange` (-511) |
| Pins.Pin.Busy | Async.cpp:127-129 | `pinBusy` holds exactly when a pulse start or a capture request is recorded; its behaviour across requests and scans is stated by `Pins.BusyLifecycle` |
| Pins.BusyLifecycle | Async.h:128-140 | a pulse or capture requested at a nonzero time makes the pin busy, `clearPin` makes it idle, and a scan keeps it busy exactly unless it ends the pulse |
| Pins.LoopPin | Async.cpp:26-37 | an idle pin is skipped; an ended output pulse is released to the inverse level and stops being busy; a capture records the first matching read in `pinFired` and every later inverse read in `pinDelay`; `pinReading` is never changed |
| Pins.LoopPinsFrom | Async.cpp:25-38 | the scan from `i` on steps every pin with its own reading and writes exactly the ended pulses, in ascending pin order |
| Pins.LoopPins | Async.cpp:25-38 | each pin is stepped with what it reads this tick; finished pulses are released with one write each, in ascending pin order |
| Pins.ScanSilentIffNothingDue | Async.cpp:25-38 | the pin scan writes nothing exactly when no output pulse has ended |
| Pins.PulseReleasedAfterDuration | Async.h:107-113 | a pulse ends at the first scan after its duration: the inverse level (LOW after HIGH, HIGH after LOW) is written and the pin is not busy |
| Pins.PulseHeldBeforeDuration | Async.cpp:29 | before its duration has elapsed the pulse stays busy and its pin is not written |
| Pins.IdlePinUntouched | Async.cpp:27 | an idle pin is neither changed nor written by the scan |
| Pins.PulseAtTimeZeroNeverReleased | Async.cpp:112 | a pulse started at tick time 0 is not busy and is never ended by a write |
| Pins.PulseOnCapturingPinNotReleased | Async.cpp:29-33 | a pulse on a pin with an uncleared capture stays busy and is never ended by a write |
| Pins.PulseInOnPulsingPinSkipsStartEdge | Async.cpp:121-125 | `pulseIn` on a pin still mid-pulse keeps its `pinFired`, so the next scan records no new start edge, writes nothing, and moves `pinDelay` when it reads the inverse level |
| Pins.ClearPinSuppressesRelease | Async.h:133-140 | clearing a pin mid-pulse cancels its pending release: the next scan leaves it alone |
| Pins.CaptureMeasuresPulse | Async.h:121-125 | a HIGH capture requested at `t0`, seen HIGH at `t0+20` and LOW at `t0+50`, gives request-to-edge 20 and width 30 and leaves the pin busy |
| Pins.CaptureEndKeepsMoving | Async.cpp:35 | one more tick at `t0+60` that still reads LOW moves `pinDelay`, so the reported width becomes 40 |
| Pins.CaptureStartRecordedOnce | Async.cpp:34 | a capture's start edge, once recorded, is never moved by the scan |
| Pins.MaxDurationPulseNeverReleased | Async.cpp:29 | a pulse of duration `ULONG_MAX` started at a nonzero time is never ended by the scan |
| Scheduler.Init | Async.cpp:5-12 | after construction the tables have their capacities, every slot is free, every pin is idle with all timestamps 0 and level HIGH, and `time` and `quantum` are the clock reading |
| Scheduler.Loop | Async.cpp:40-46 | `loop` sets `time` to the reading and `quantum` to the distance from the previous time, then runs the slot scan, then the pin scan, all against the one reading |
| Scheduler.Pulse | Async.cpp:108-115 | `pulse` on the object switches the pin to output and writes the value at once (digitally for HIGH/LOW, as analog otherwise), starts the pulse at the object's `time`, changes only that pin, and leaves the slots, `time` and `quantum` alone |
| Scheduler.PulseIn | Async.cpp:121-125 | `pulseIn` on the object records the object's `time` as the request, changes only that pin, and emits only the mode change |
| Scheduler.ChangePeriod | Async.cpp:93-96 | `changePeriod` on the object restarts the slot's window at the object's `time` and changes nothing else |
| Scheduler.PulseEndsOnTimelyTick | Async.h:107-113 | a pulse requested through the object ends on a later tick at least its duration on, without a wrap: the inverse level is written and the pin is idle |
| Scheduler.HandlersBeforePinWrites | Async.cpp:44-45 | within a tick every handler call precedes every pin write |
| Scheduler.QuantumIsTickDuration | Async.cpp:41-42 | `quantum` is the tick's true duration even when the counter wrapped during it |
| Scheduler.FirstTickIsQuiet | Async.cpp:5-12 | the first tick after construction invokes no handler and writes no pin |
| Scheduler.Run | Async.h:10-19 | over any run of ticks both tables keep their fixed capacities, and `time` ends at the last clock reading |
| Scheduler.FreeSlotNeverRuns | Async.h:94-99 | a free slot stays free and is never invoked over any run of ticks |
| Scheduler.ClearedTimeoutNeverRuns | Async.h:94-99 | a timeout cleared before it ran is never invoked over any later run of ticks |
| Scheduler.TimeoutRunsAtMostOnce | Async.h:81-86 | a one-shot slot's handler is invoked at most once over any run of ticks |
| Scheduler.CaptureStaysBusy | Async.h:121-135 | a capture's request time is kept and the pin stays busy over any run of ticks, until `clearPin` |
| Scheduler.IdlePinStaysIdle | Async.cpp:27 | an idle pin is never changed or written over any run of ticks |

## Left out

- At the object level only the default capacities are modelled: `Scheduler.State.Valid` fixes `ASYNC_SLOTS` and `ASYNC_PINS` at 16, although a sketch may `#define` other values. `Slots` and `Pins` hold for tables of any length.
- The Arduino calls `micros`, `pinMode`, `digitalWrite`, `analogWrite` and `digitalRead` are not modelled as hardware. Clock readings and read levels are inputs; the calls are recorded as events.
- Handler bodies are opaque function pointers. The model records each call and assumes the handler does not change the tables (a re-entrant handler could).
- The global `Async` singleton is replaced by an explicit `Scheduler.State` value.
- Slot and pin indices are not bounds-checked in the source. Out-of-range indices are excluded by preconditions.
- `pinVal` is declared with `ASYNC_SLOTS` entries but indexed by pin. The model gives each pin its own `val`, which is faithful while `ASYNC_PINS <= ASYNC_SLOTS` (16 and 16 by default).
- Direct writes by the sketch to the public arrays (`fn`, `fnPeriod`, `pinDelay`, ...) are not modelled. Only the class's operations change the state.
- The overloads without a context are the context-taking functions called with NULL (0). The header/source declaration mismatches are compile-time matters and are not modelled.
- `digitalRead` is modelled as one reading per pin per tick. This is exact: the scan reads each capturing pin at most once per tick.
