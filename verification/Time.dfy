/**
 Time arithmetic on the 32-bit `unsigned long` counter returned by `micros()`.
 The counter wraps modulo 2^32 (about every 71 minutes).
 */
module Time {

  const TWO32: int := 0x1_0000_0000
  const ULONG_MAX: int := 0xFFFF_FFFF

  /** An `unsigned long` value on the target (32 bits). */
  type U32 = x: int | 0 <= x < 0x1_0000_0000

  /** C's conversion of an integer to `unsigned long`: reduction modulo 2^32. */
  function ToU32(x: int): (r: U32)
    ensures 0 <= x < TWO32 ==> r == x
    ensures (x - r) % TWO32 == 0
  {
    x % TWO32
  }

  /** Unsigned subtraction `to - from` as C evaluates it: the forward distance modulo 2^32. */
  function ModDiff(from: U32, to: U32): (r: U32)
    ensures (from + r) % TWO32 == to
  {
    (to - from) % TWO32
  }

  /** The `to` argument of `timediff` after defaulting: 0 means "the current tick time". */
  function Target(to: U32, now: U32): (t: U32) {
    if to == 0 then now else to
  }

  /**
   `timediff(from, to)` where `now` is the scheduler's `time` field. When the
   counter has not wrapped it is the plain difference; when it has, the code
   computes `ULONG_MAX - from + to`, which falls one short of the forward distance.
   */
  function TimeDiff(from: U32, to: U32, now: U32): (r: U32)
    ensures from <= Target(to, now) ==> r == ModDiff(from, Target(to, now))
    ensures from > Target(to, now) ==> r + 1 == ModDiff(from, Target(to, now))
  {
    var t := if to == 0 then now else to;
    if t >= from then t - from else ULONG_MAX - from + t
  }

  /** Modular subtraction recovers any distance shorter than a full turn of the counter, wrapped or not. */
  lemma ModDiffRecoversDistance(from: U32, d: nat)
    requires d < TWO32
    ensures ModDiff(from, ToU32(from + d)) == d
  {
  }

  /**
   Across a wrap of the counter `timediff` reports one less than the distance
   travelled; without a wrap it is exact. The 0 target is excluded because
   `timediff` replaces it by the tick time.
   */
  lemma TimeDiffOfDistance(from: U32, d: nat, now: U32)
    requires d < TWO32
    requires ToU32(from + d) != 0
    ensures from + d < TWO32 ==> TimeDiff(from, ToU32(from + d), now) == d
    ensures from + d >= TWO32 ==> TimeDiff(from, ToU32(from + d), now) == d - 1
  {
  }

  /**
   From a nonzero start `timediff` stays below `ULONG_MAX`: the plain branch
   is at most `ULONG_MAX - from`, and the wrap branch falls one short.
   */
  lemma TimeDiffNeverMax(from: U32, to: U32, now: U32)
    requires from != 0
    ensures TimeDiff(from, to, now) < ULONG_MAX
  {
  }

  /** Omitting `to` (passing 0) is the same as passing the tick time. */
  lemma TimeDiffDefaultIsNow(from: U32, now: U32)
    ensures TimeDiff(from, 0, now) == TimeDiff(from, now, now)
  {
  }

  /** An example of the counter wrapping: five ticks before the wrap to five ticks after is ten, reported as nine. */
  lemma TimeDiffWrapExample(now: U32)
    ensures ModDiff(ULONG_MAX - 4, 5) == 10
    ensures TimeDiff(ULONG_MAX - 4, 5, now) == 9
  {
  }
}
