/**
 The callback slot table: a fixed array of handlers, each with a context,
 a period, the stamp of its last firing and a repeat flag. A slot is free
 exactly when its handler is the `nullfn` sentinel. The table never grows or
 shrinks; operations only mark entries free or occupied.
 */
module Slots {
  import opened Effects
  import opened Time

  /** The handler stored in a slot: the `nullfn` sentinel or a real function. */
  datatype Handler = NullFn | Fn(id: FnId)

  datatype Slot = Slot(handler: Handler, context: Context, period: U32, stamp: U32, repeat: bool) {
    predicate IsFree() {
      handler == NullFn
    }
  }

  /** A slot of the freshly constructed table (the global object is zero-initialised). */
  const FreeSlot: Slot := Slot(NullFn, NULL, 0, 0, false)

  /** Index chosen by a registration (-1 when no slot was free) and the resulting table. */
  datatype Placement = Placement(index: int, slots: seq<Slot>)

  /** Number of free slots. */
  function CountFree(slots: seq<Slot>): (n: nat)
    ensures n <= |slots|
  {
    if slots == [] then 0
    else CountFree(slots[..|slots| - 1]) + (if slots[|slots| - 1].IsFree() then 1 else 0)
  }

  predicate AllOccupied(slots: seq<Slot>) {
    forall j :: 0 <= j < |slots| ==> !slots[j].IsFree()
  }

  /** `getFreeSlot`, scanning from index `i` upwards. */
  function FirstFreeFrom(slots: seq<Slot>, i: nat): (r: int)
    requires i <= |slots|
    ensures r == -1 || i <= r < |slots|
    ensures r == -1 <==> forall j :: i <= j < |slots| ==> !slots[j].IsFree()
    ensures r != -1 ==> slots[r].IsFree() && forall j :: i <= j < r ==> !slots[j].IsFree()
    decreases |slots| - i
  {
    if i == |slots| then -1
    else if slots[i].IsFree() then i
    else FirstFreeFrom(slots, i + 1)
  }

  /** `getFreeSlot`: the lowest free index, or -1 exactly when every slot is taken. */
  function GetFreeSlot(slots: seq<Slot>): (r: int)
    ensures r == -1 <==> AllOccupied(slots)
    ensures r != -1 ==> 0 <= r < |slots| && slots[r].IsFree()
    ensures r != -1 ==> forall j :: 0 <= j < r ==> !slots[j].IsFree()
  {
    FirstFreeFrom(slots, 0)
  }

  /**
   `setSlot`: with `slot == -1` the first free slot is taken; an explicit index
   overwrites whatever is there. The stamp is reset to 0, not to the current time.
   */
  function SetSlot(slots: seq<Slot>, context: Context, f: FnId, us: U32, slot: int, repeat: bool): (r: Placement)
    requires slot == -1 || 0 <= slot < |slots|
    ensures |r.slots| == |slots|
    ensures r.index == -1 <==> slot == -1 && AllOccupied(slots)
    ensures r.index == -1 ==> r.slots == slots
    ensures slot != -1 ==> r.index == slot
    ensures slot == -1 && r.index != -1 ==>
      0 <= r.index < |slots| && slots[r.index].IsFree()
      && forall j :: 0 <= j < r.index ==> !slots[j].IsFree()
    ensures r.index != -1 ==>
      0 <= r.index < |slots|
      && r.slots[r.index] == Slot(Fn(f), context, us, 0, repeat)
      && forall j :: 0 <= j < |slots| && j != r.index ==> r.slots[j] == slots[j]
  {
    var index := if slot == -1 then GetFreeSlot(slots) else slot;
    if index == -1 then Placement(-1, slots)
    else Placement(index, slots[index := Slot(Fn(f), context, us, 0, repeat)])
  }

  /** `interval`: register `f` to be called every `us` microseconds. */
  function Interval(slots: seq<Slot>, context: Context, f: FnId, us: U32, slot: int): (r: Placement)
    requires slot == -1 || 0 <= slot < |slots|
    ensures r.index == -1 <==> slot == -1 && AllOccupied(slots)
    ensures r.index != -1 ==> 0 <= r.index < |r.slots| && r.slots[r.index].repeat
    ensures r.index != -1 ==> r.slots[r.index].handler == Fn(f) && r.slots[r.index].period == us
    ensures |r.slots| == |slots|
    ensures r.index == -1 ==> r.slots == slots
    ensures slot != -1 ==> r.index == slot
    ensures slot == -1 && r.index != -1 ==> forall j :: 0 <= j < r.index ==> !slots[j].IsFree()
    ensures slot == -1 && r.index != -1 ==> slots[r.index].IsFree()
    ensures r.index != -1 ==> r.slots == slots[r.index := Slot(Fn(f), context, us, 0, true)]
  {
    SetSlot(slots, context, f, us, slot, true)
  }

  /** `intervalms`: `interval` with the period in milliseconds, multiplied by 1000 in 32-bit arithmetic. */
  function IntervalMs(slots: seq<Slot>, context: Context, f: FnId, ms: U32, slot: int): (r: Placement)
    requires slot == -1 || 0 <= slot < |slots|
    ensures r.index == -1 <==> slot == -1 && AllOccupied(slots)
    ensures r.index != -1 ==> 0 <= r.index < |r.slots| && r.slots[r.index].repeat
    ensures r.index != -1 && ms * 1000 < TWO32 ==> r.slots[r.index].period == ms * 1000
    ensures r.index != -1 ==> r.slots[r.index].period == (ms * 1000) % TWO32
    ensures |r.slots| == |slots|
    ensures r.index == -1 ==> r.slots == slots
    ensures slot != -1 ==> r.index == slot
    ensures slot == -1 && r.index != -1 ==> forall j :: 0 <= j < r.index ==> !slots[j].IsFree()
    ensures slot == -1 && r.index != -1 ==> slots[r.index].IsFree()
    ensures r.index != -1 ==>
      r.slots == slots[r.index := Slot(Fn(f), context, (ms * 1000) % TWO32, 0, true)]
  {
    Interval(slots, context, f, ToU32(ms * 1000), slot)
  }

  /** `timeout`: register `f` to be called once, `us` microseconds on. */
  function Timeout(slots: seq<Slot>, context: Context, f: FnId, us: U32, slot: int): (r: Placement)
    requires slot == -1 || 0 <= slot < |slots|
    ensures r.index == -1 <==> slot == -1 && AllOccupied(slots)
    ensures r.index != -1 ==> 0 <= r.index < |r.slots| && !r.slots[r.index].repeat
    ensures r.index != -1 ==> r.slots[r.index].handler == Fn(f) && r.slots[r.index].period == us
    ensures |r.slots| == |slots|
    ensures r.index == -1 ==> r.slots == slots
    ensures slot != -1 ==> r.index == slot
    ensures slot == -1 && r.index != -1 ==> forall j :: 0 <= j < r.index ==> !slots[j].IsFree()
    ensures slot == -1 && r.index != -1 ==> slots[r.index].IsFree()
    ensures r.index != -1 ==> r.slots == slots[r.index := Slot(Fn(f), context, us, 0, false)]
  {
    SetSlot(slots, context, f, us, slot, false)
  }

  /** `timeoutms`: `timeout` with the delay in milliseconds, multiplied by 1000 in 32-bit arithmetic. */
  function TimeoutMs(slots: seq<Slot>, context: Context, f: FnId, ms: U32, slot: int): (r: Placement)
    requires slot == -1 || 0 <= slot < |slots|
    ensures r.index == -1 <==> slot == -1 && AllOccupied(slots)
    ensures r.index != -1 ==> 0 <= r.index < |r.slots| && !r.slots[r.index].repeat
    ensures r.index != -1 && ms * 1000 < TWO32 ==> r.slots[r.index].period == ms * 1000
    ensures r.index != -1 ==> r.slots[r.index].period == (ms * 1000) % TWO32
    ensures |r.slots| == |slots|
    ensures r.index == -1 ==> r.slots == slots
    ensures slot != -1 ==> r.index == slot
    ensures slot == -1 && r.index != -1 ==> forall j :: 0 <= j < r.index ==> !slots[j].IsFree()
    ensures slot == -1 && r.index != -1 ==> slots[r.index].IsFree()
    ensures r.index != -1 ==>
      r.slots == slots[r.index := Slot(Fn(f), context, (ms * 1000) % TWO32, 0, false)]
  {
    Timeout(slots, context, f, ToU32(ms * 1000), slot)
  }

  /** `clearSlot`: only the handler changes, to the free sentinel. */
  function ClearSlot(slots: seq<Slot>, slot: nat): (r: seq<Slot>)
    requires slot < |slots|
    ensures |r| == |slots| && r[slot].IsFree()
    ensures r[slot].period == slots[slot].period && r[slot].stamp == slots[slot].stamp
    ensures r[slot].repeat == slots[slot].repeat && r[slot].context == slots[slot].context
    ensures forall j :: 0 <= j < |slots| && j != slot ==> r[j] == slots[j]
  {
    slots[slot := slots[slot].(handler := NullFn)]
  }

  /** `changePeriod`: new period, and the waiting window restarts at the tick time `now`. */
  function ChangePeriod(slots: seq<Slot>, slot: nat, us: U32, now: U32): (r: seq<Slot>)
    requires slot < |slots|
    ensures |r| == |slots|
    ensures r[slot].period == us && r[slot].stamp == now
    ensures r[slot].handler == slots[slot].handler && r[slot].repeat == slots[slot].repeat
    ensures r[slot].context == slots[slot].context
    ensures forall j :: 0 <= j < |slots| && j != slot ==> r[j] == slots[j]
  {
    slots[slot := slots[slot].(period := us, stamp := now)]
  }

  /** An occupied slot whose period has elapsed since its stamp, by `timediff`. */
  predicate Due(s: Slot, now: U32) {
    !s.IsFree() && TimeDiff(s.stamp, 0, now) >= s.period
  }

  /** A slot after it has fired at `now`: stamped, and freed unless it repeats. */
  function Fired(s: Slot, now: U32): (r: Slot) {
    var stamped := s.(stamp := now);
    if s.repeat then stamped else stamped.(handler := NullFn)
  }

  /** What one pass of `loopSlots` does to a single slot. */
  function Scanned(s: Slot, now: U32): (r: Slot) {
    if Due(s, now) then Fired(s, now) else s
  }

  /** The invocation a due slot `i` produces. */
  function InvokeOf(slots: seq<Slot>, i: nat): (e: Event)
    requires i < |slots| && !slots[i].IsFree()
  {
    Invoke(i, slots[i].handler.id, slots[i].context)
  }

  /** Every invocation in `events` is the call of a slot from `lo` on that is due. */
  predicate OnlyDueInvoked(events: seq<Event>, slots: seq<Slot>, now: U32, lo: nat) {
    forall k :: 0 <= k < |events| ==>
      lo <= events[k].Subject() < |slots| && Due(slots[events[k].Subject()], now)
      && events[k] == InvokeOf(slots, events[k].Subject())
  }

  /** Every slot from `lo` on that is due has its invocation in `events`. */
  predicate AllDueInvoked(events: seq<Event>, slots: seq<Slot>, now: U32, lo: nat) {
    forall j :: lo <= j < |slots| && Due(slots[j], now) ==>
      exists k :: 0 <= k < |events| && events[k].Subject() == j
  }

  /**
   The invocations of one `loopSlots` pass from index `lo` on: each due slot's
   handler exactly once, with its own context, in ascending slot order.
   */
  predicate InvokesDue(events: seq<Event>, slots: seq<Slot>, now: U32, lo: nat) {
    Ascending(events) && OnlyDueInvoked(events, slots, now, lo) && AllDueInvoked(events, slots, now, lo)
  }

  /** `loopSlots` from index `i` on; entries below `i` are left as they are. */
  function LoopSlotsFrom(slots: seq<Slot>, now: U32, i: nat): (r: Emitted<seq<Slot>>)
    requires i <= |slots|
    ensures |r.value| == |slots|
    ensures forall j :: 0 <= j < i ==> r.value[j] == slots[j]
    ensures forall j :: i <= j < |slots| ==> r.value[j] == Scanned(slots[j], now)
    ensures InvokesDue(r.events, slots, now, i)
    decreases |slots| - i
  {
    if i == |slots| then Emitted(slots, [])
    else if !Due(slots[i], now) then
      var rest := LoopSlotsFrom(slots, now, i + 1);
      InvokesDueSkip(rest.events, slots, now, i);
      rest
    else
      var rest := LoopSlotsFrom(slots[i := Fired(slots[i], now)], now, i + 1);
      InvokesDuePrepend(rest.events, slots, now, i);
      Emitted(rest.value, [InvokeOf(slots, i)] + rest.events)
  }

  lemma InvokesDueSkip(events: seq<Event>, slots: seq<Slot>, now: U32, i: nat)
    requires i < |slots| && !Due(slots[i], now)
    requires InvokesDue(events, slots, now, i + 1)
    ensures InvokesDue(events, slots, now, i)
  {
  }

  lemma InvokesDuePrepend(rest: seq<Event>, slots: seq<Slot>, now: U32, i: nat)
    requires i < |slots| && Due(slots[i], now)
    requires InvokesDue(rest, slots[i := Fired(slots[i], now)], now, i + 1)
    ensures InvokesDue([InvokeOf(slots, i)] + rest, slots, now, i)
  {
    var fired := slots[i := Fired(slots[i], now)];
    assert forall j :: i < j < |slots| ==> fired[j] == slots[j];
    PrependAscending(rest, fired, slots, now, i);
    PrependOnlyDue(rest, fired, slots, now, i);
    PrependAllDue(rest, fired, slots, now, i);
  }

  lemma PrependAscending(rest: seq<Event>, fired: seq<Slot>, slots: seq<Slot>, now: U32, i: nat)
    requires i < |slots| && Due(slots[i], now)
    requires Ascending(rest) && OnlyDueInvoked(rest, fired, now, i + 1)
    ensures Ascending([InvokeOf(slots, i)] + rest)
  {
  }

  lemma PrependOnlyDue(rest: seq<Event>, fired: seq<Slot>, slots: seq<Slot>, now: U32, i: nat)
    requires i < |slots| && Due(slots[i], now) && |fired| == |slots|
    requires forall j :: i < j < |slots| ==> fired[j] == slots[j]
    requires OnlyDueInvoked(rest, fired, now, i + 1)
    ensures OnlyDueInvoked([InvokeOf(slots, i)] + rest, slots, now, i)
  {
  }

  lemma PrependAllDue(rest: seq<Event>, fired: seq<Slot>, slots: seq<Slot>, now: U32, i: nat)
    requires i < |slots| && Due(slots[i], now) && |fired| == |slots|
    requires forall j :: i < j < |slots| ==> fired[j] == slots[j]
    requires AllDueInvoked(rest, fired, now, i + 1)
    ensures AllDueInvoked([InvokeOf(slots, i)] + rest, slots, now, i)
  {
    var events := [InvokeOf(slots, i)] + rest;
    forall j | i <= j < |slots| && Due(slots[j], now)
      ensures exists k :: 0 <= k < |events| && events[k].Subject() == j
    {
      if j == i {
        assert events[0].Subject() == i;
      } else {
        assert Due(fired[j], now);
        var k :| 0 <= k < |rest| && rest[k].Subject() == j;
        assert events[k + 1] == rest[k];
      }
    }
  }

  /**
   `loopSlots`: every due slot is stamped with `now` and its handler invoked
   once; a one-shot slot is freed after its call; all other slots are unchanged.
   */
  function LoopSlots(slots: seq<Slot>, now: U32): (r: Emitted<seq<Slot>>)
    ensures |r.value| == |slots|
    ensures forall j :: 0 <= j < |slots| ==> r.value[j] == Scanned(slots[j], now)
    ensures InvokesDue(r.events, slots, now, 0)
  {
    LoopSlotsFrom(slots, now, 0)
  }

  /** Replacing one entry changes the free count by that entry's contribution only. */
  lemma {:induction false} CountFreeUpdate(slots: seq<Slot>, i: nat, x: Slot)
    requires i < |slots|
    ensures CountFree(slots[i := x]) + (if slots[i].IsFree() then 1 else 0)
         == CountFree(slots) + (if x.IsFree() then 1 else 0)
    decreases |slots|
  {
    var n := |slots| - 1;
    var t := slots[i := x];
    assert t[..n] == if i == n then slots[..n] else slots[..n][i := x];
    if i < n {
      CountFreeUpdate(slots[..n], i, x);
    }
  }

  /** No free slot is counted exactly when every slot is occupied. */
  lemma {:induction false} CountFreeZeroIffAllOccupied(slots: seq<Slot>)
    ensures CountFree(slots) == 0 <==> AllOccupied(slots)
  {
    if slots != [] {
      var n := |slots| - 1;
      CountFreeZeroIffAllOccupied(slots[..n]);
      assert forall j :: 0 <= j < n ==> slots[..n][j] == slots[j];
    }
  }

  /** A scan that frees no more than it keeps: entries free in `a` are free in `b`, so `b` has as many free slots. */
  lemma {:induction false} CountFreeMonotone(a: seq<Slot>, b: seq<Slot>)
    requires |a| == |b|
    requires forall j :: 0 <= j < |a| && a[j].IsFree() ==> b[j].IsFree()
    ensures CountFree(a) <= CountFree(b)
  {
    if a != [] {
      var n := |a| - 1;
      CountFreeMonotone(a[..n], b[..n]);
    }
  }

  /**
   A registration without an explicit index succeeds exactly when some slot is
   free, and then occupies exactly one more slot; so once all slots are taken the
   next such registration fails and the occupancy stays at the capacity.
   */
  lemma AutoRegistrationTakesOneFreeSlot(slots: seq<Slot>, context: Context, f: FnId, us: U32, repeat: bool)
    ensures SetSlot(slots, context, f, us, -1, repeat).index != -1 <==> CountFree(slots) > 0
    ensures SetSlot(slots, context, f, us, -1, repeat).index != -1 ==>
      CountFree(SetSlot(slots, context, f, us, -1, repeat).slots) == CountFree(slots) - 1
    ensures SetSlot(slots, context, f, us, -1, repeat).index == -1 ==>
      CountFree(SetSlot(slots, context, f, us, -1, repeat).slots) == 0
  {
    var r := SetSlot(slots, context, f, us, -1, repeat);
    CountFreeZeroIffAllOccupied(slots);
    if r.index != -1 {
      assert r.slots == slots[r.index := Slot(Fn(f), context, us, 0, repeat)];
      CountFreeUpdate(slots, r.index, Slot(Fn(f), context, us, 0, repeat));
    }
  }

  /** A registered slot starts with stamp 0, so its first firing waits for the clock itself to reach the period. */
  lemma RegisteredSlotDueFromClockOrigin(
    slots: seq<Slot>, context: Context, f: FnId, us: U32, slot: int, repeat: bool, now: U32)
    requires slot == -1 || 0 <= slot < |slots|
    requires SetSlot(slots, context, f, us, slot, repeat).index != -1
    ensures var r := SetSlot(slots, context, f, us, slot, repeat);
      Due(r.slots[r.index], now) <==> now >= us
  {
  }

  /** A cleared slot is found by `getFreeSlot`, at its own index or a lower one. */
  lemma ClearedSlotIsFound(slots: seq<Slot>, slot: nat)
    requires slot < |slots|
    ensures 0 <= GetFreeSlot(ClearSlot(slots, slot)) <= slot
  {
  }

  /** A slot that is not due (in particular a free one) is left as it is and not invoked by the scan. */
  lemma NotDueSlotUntouched(slots: seq<Slot>, now: U32, i: nat)
    requires i < |slots| && !Due(slots[i], now)
    ensures LoopSlots(slots, now).value[i] == slots[i]
    ensures NoInvokeOf(LoopSlots(slots, now).events, i)
  {
  }

  /** After `clearSlot`, a pending timeout is not invoked by any later scan. */
  lemma ClearedSlotNotInvoked(slots: seq<Slot>, slot: nat, now: U32)
    requires slot < |slots|
    ensures NoInvokeOf(LoopSlots(ClearSlot(slots, slot), now).events, slot)
  {
  }

  /** The scan never occupies a slot: there are at least as many free slots afterwards. */
  lemma ScanNeverOccupies(slots: seq<Slot>, now: U32)
    ensures CountFree(LoopSlots(slots, now).value) >= CountFree(slots)
  {
    CountFreeMonotone(slots, LoopSlots(slots, now).value);
  }

  /** A one-shot slot that is due is invoked once in the scan and is free afterwards. */
  lemma DueTimeoutRunsOnceAndFrees(slots: seq<Slot>, now: U32, i: nat)
    requires i < |slots| && Due(slots[i], now) && !slots[i].repeat
    ensures LoopSlots(slots, now).value[i].IsFree()
    ensures InvokeCount(LoopSlots(slots, now).events, i) == 1
  {
    var r := LoopSlots(slots, now);
    var k :| 0 <= k < |r.events| && r.events[k].Subject() == i;
    InvokeCountSplit(r.events, k, i);
  }

  /** After `changePeriod` at tick time `at`, the slot waits a whole new period measured from `at`. */
  lemma ChangePeriodRestartsWindow(slots: seq<Slot>, slot: nat, us: U32, at: U32, now: U32)
    requires slot < |slots| && !slots[slot].IsFree()
    ensures Due(ChangePeriod(slots, slot, us, at)[slot], now) <==> TimeDiff(at, 0, now) >= us
    ensures Due(ChangePeriod(slots, slot, us, at)[slot], at) <==> us == 0
  {
  }

  /** A periodic slot that fired at `now` fires again exactly when a full period has elapsed from `now`. */
  lemma IntervalRefiresAfterPeriod(slots: seq<Slot>, now: U32, later: U32, i: nat)
    requires i < |slots| && Due(slots[i], now) && slots[i].repeat
    ensures var s := LoopSlots(slots, now).value[i];
      !s.IsFree() && (Due(s, later) <==> TimeDiff(now, 0, later) >= slots[i].period)
  {
  }

  /**
   A slot whose period is `ULONG_MAX` and whose stamp is nonzero (it last
   fired at a nonzero tick time) is never due again.
   */
  lemma MaxPeriodNeverDueAgain(s: Slot, now: U32)
    requires s.stamp != 0 && s.period == ULONG_MAX
    ensures !Due(s, now)
    ensures Scanned(s, now) == s
  {
  }

  /** A table with no occupied slot counts every slot as free. */
  lemma {:induction false} CountFreeAllFree(slots: seq<Slot>)
    requires forall j :: 0 <= j < |slots| ==> slots[j].IsFree()
    ensures CountFree(slots) == |slots|
  {
    if slots != [] {
      CountFreeAllFree(slots[..|slots| - 1]);
    }
  }

  lemma {:induction false} SilentFrom(slots: seq<Slot>, now: U32, i: nat)
    requires i <= |slots|
    ensures LoopSlotsFrom(slots, now, i).events == [] <==> forall j :: i <= j < |slots| ==> !Due(slots[j], now)
    decreases |slots| - i
  {
    if i < |slots| && !Due(slots[i], now) {
      SilentFrom(slots, now, i + 1);
    }
  }

  /** A scan invokes no handler exactly when no slot is due. */
  lemma ScanSilentIffNothingDue(slots: seq<Slot>, now: U32)
    ensures LoopSlots(slots, now).events == [] <==> forall j :: 0 <= j < |slots| ==> !Due(slots[j], now)
  {
    SilentFrom(slots, now, 0);
  }
}
