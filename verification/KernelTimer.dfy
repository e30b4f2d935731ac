/**
 The cooperative kernel timer of apps/root-task/src/kernel.rs: polls over a 64-bit cycle counter that wraps,
 saturating tick and millisecond counts. Times here are unbounded; the counter shows them modulo 2^64.
 */
module KernelTimer {
  import opened Outcome

  const WORD: nat := 0x1_0000_0000_0000_0000
  const U64_MAX: nat := WORD - 1

  datatype Timer = Timer(tick: nat, periodMs: nat, periodCycles: nat, lastCycles: nat, enabled: bool)
  datatype TickEvent = TickEvent(tick: nat, nowMs: nat)

  function WrappingSub(a: nat, b: nat): nat {
    (a - b) % WORD
  }

  function Saturated(n: nat): nat {
    if n > U64_MAX then U64_MAX else n
  }

  function Max1(n: nat): nat {
    if n < 1 then 1 else n
  }

  // Products and quotients with variable operands, named so that proofs can keep them closed.

  function Quot(a: nat, b: nat): nat
    requires b >= 1
  {
    a / b
  }

  function Rem(a: nat, b: nat): nat
    requires b >= 1
  {
    a % b
  }

  function Times(a: nat, b: nat): nat {
    a * b
  }

  /** `KernelTimer::poll` with the counter reading as a parameter. */
  function Poll(t: Timer, current: nat, nowMs: nat): (Timer, Option<TickEvent>)
    requires t.periodCycles >= 1
  {
    if !t.enabled then (t, None)
    else
      var elapsed := WrappingSub(current, t.lastCycles);
      if elapsed < t.periodCycles then (t, None)
      else
        var ticks := Max1(Quot(elapsed, t.periodCycles));
        var overshoot := Rem(elapsed, t.periodCycles);
        var t' := t.(lastCycles := WrappingSub(current, overshoot), tick := Saturated(t.tick + ticks));
        (t', Some(TickEvent(t'.tick, Saturated(nowMs + Saturated(Times(t.periodMs, ticks))))))
  }

  class Kernel {
    var tick: nat
    const periodMs: nat
    const periodCycles: nat
    var lastCycles: nat
    const enabled: bool

    ghost function View(): Timer
      reads this
    {
      Timer(tick, periodMs, periodCycles, lastCycles, enabled)
    }

    constructor (freqHz: nat, periodMs: nat, baseline: nat)
      requires freqHz < WORD && periodMs < WORD
      ensures View() == Timer(0, Max1(periodMs), PeriodCycles(freqHz, periodMs), baseline, true)
    {
      tick := 0;
      this.periodMs := Max1(periodMs);
      periodCycles := PeriodCycles(freqHz, periodMs);
      lastCycles := baseline;
      enabled := true;
    }

    constructor Bypass(periodMs: nat)
      ensures View() == Timer(0, Max1(periodMs), 1, 0, false)
    {
      tick, lastCycles := 0, 0;
      this.periodMs := Max1(periodMs);
      periodCycles := 1;
      enabled := false;
    }

    method PollOnce(current: nat, nowMs: nat) returns (r: Option<TickEvent>)
      requires periodCycles >= 1
      modifies this
      ensures (View(), r) == Poll(old(View()), current, nowMs)
    {
      if !enabled {
        return None;
      }
      var elapsed := WrappingSub(current, lastCycles);
      if elapsed < periodCycles {
        return None;
      }
      var ticks := Max1(Quot(elapsed, periodCycles));
      var overshoot := Rem(elapsed, periodCycles);
      lastCycles := WrappingSub(current, overshoot);
      tick := Saturated(tick + ticks);
      var deltaMs := Saturated(Times(periodMs, ticks));
      return Some(TickEvent(tick, Saturated(nowMs + deltaMs)));
    }
  }

  /** `compute_period_cycles`: the 128-bit quotient truncated to 64 bits, and at least 1. */
  function PeriodCycles(freqHz: nat, periodMs: nat): (r: nat)
    requires freqHz < WORD && periodMs < WORD
    ensures 1 <= r < WORD
  {
    if freqHz == 0 then 1
    else
      var clamped := Max1(periodMs);
      var cycles := freqHz * clamped / 1000 % WORD;
      Max1(cycles)
  }

  /** Where the cycle count fits 64 bits, the period is the milliseconds' worth of cycles, rounded down. */
  lemma {:induction false} PeriodCyclesIs(freqHz: nat, periodMs: nat)
    requires freqHz < WORD && periodMs < WORD
    ensures 1000 <= freqHz * Max1(periodMs) < 1000 * WORD ==>
              var r := PeriodCycles(freqHz, periodMs);
              1000 * r <= freqHz * Max1(periodMs) < 1000 * (r + 1)
    ensures freqHz * Max1(periodMs) < 1000 ==> PeriodCycles(freqHz, periodMs) == 1
  {
    var cycles := freqHz * Max1(periodMs);
    assert 1000 * (cycles / 1000) <= cycles < 1000 * (cycles / 1000 + 1);
    if cycles < 1000 * WORD {
      Small(cycles / 1000);
    }
  }

  // ----- no drift -----

  /** Whole periods since the baseline. */
  function Periods(base: nat, time: nat, period: nat): nat
    requires base <= time && period >= 1
  {
    Quot(time - base, period)
  }

  /** The time of the `n`th boundary. */
  function Boundary(base: nat, period: nat, n: nat): nat {
    base + Times(period, n)
  }

  /** The timer's last boundary is `n` periods after the baseline and it has counted `n` ticks, saturating. */
  predicate Synced(t: Timer, base: nat, n: nat) {
    && 1 <= t.periodCycles < WORD
    && t.lastCycles == Boundary(base, t.periodCycles, n) % WORD
    && t.tick == Saturated(n)
  }

  lemma {:induction false} ModShift(x: int, k: int)
    ensures (x - WORD * k) % WORD == x % WORD
  {
    var q := x / WORD;
    assert x - WORD * k == WORD * (q - k) + x % WORD;
  }

  lemma {:induction false} WrapDifference(a: nat, b: nat)
    requires b <= a
    ensures WrappingSub(a % WORD, b % WORD) == (a - b) % WORD
  {
    var qa, qb := a / WORD, b / WORD;
    assert a % WORD - b % WORD == (a - b) - WORD * (qa - qb);
    ModShift(a - b, qa - qb);
  }

  // Division and multiplication by a variable period, kept behind names.

  lemma {:induction false} TimesLess(p: nat, a: nat, b: nat)
    requires a < b
    ensures Times(p, a) + p <= Times(p, b)
    decreases b
  {
    assert p * b == p * (b - 1) + p;
    if a < b - 1 {
      TimesLess(p, a, b - 1);
    }
  }

  lemma {:induction false} TimesAdd(p: nat, a: nat, b: nat)
    ensures Times(p, a + b) == Times(p, a) + Times(p, b)
    ensures Times(p, 0) == 0
  {
    assert p * (a + b) == p * a + p * b;
  }

  lemma {:induction false} QuotRem(e: nat, p: nat)
    requires p >= 1
    ensures e == Times(p, Quot(e, p)) + Rem(e, p) && Rem(e, p) < p
  {}

  lemma {:induction false} QuotUnique(e: nat, p: nat, q: nat, r: nat)
    requires p >= 1 && e == Times(p, q) + r && r < p
    ensures Quot(e, p) == q && Rem(e, p) == r
  {
    QuotRem(e, p);
    var q' := Quot(e, p);
    hide Quot, Rem, Times;
    if q' < q {
      TimesLess(p, q', q);
    } else if q < q' {
      TimesLess(p, q, q');
    }
  }

  lemma {:induction false} QuotAdd(e: nat, p: nat, n: nat)
    requires p >= 1
    ensures Quot(Times(p, n) + e, p) == n + Quot(e, p)
  {
    QuotRem(e, p);
    hide Quot, Rem, Times;
    TimesAdd(p, n, Quot(e, p));
    QuotUnique(Times(p, n) + e, p, n + Quot(e, p), Rem(e, p));
  }

  lemma {:induction false} QuotZero(e: nat, p: nat)
    requires p >= 1
    ensures Quot(e, p) == 0 <==> e < p
  {
    QuotRem(e, p);
    hide Quot, Rem, Times;
    TimesAdd(p, 0, 0);
    if e < p {
      QuotUnique(e, p, 0, e);
    }
  }

  lemma {:induction false} BoundaryBefore(base: nat, period: nat, n: nat, time: nat)
    requires period >= 1 && Boundary(base, period, n) <= time
    ensures var e := time - Boundary(base, period, n);
            var m := Periods(base, time, period);
            && m == n + Quot(e, period)
            && Boundary(base, period, m) + Rem(e, period) == time
  {
    hide Quot, Rem, Times;
    var e := time - Boundary(base, period, n);
    QuotAdd(e, period, n);
    QuotRem(e, period);
    TimesAdd(period, n, Quot(e, period));
  }

  /** One poll in terms of the cycles since the last boundary. */
  lemma {:induction false} PollAt(t: Timer, boundary: nat, elapsed: nat, nowMs: nat)
    requires 1 <= t.periodCycles < WORD && t.enabled && t.lastCycles == boundary % WORD
    requires elapsed < WORD && Rem(elapsed, t.periodCycles) <= elapsed
    ensures var q, r := Quot(elapsed, t.periodCycles), Rem(elapsed, t.periodCycles);
            Poll(t, (boundary + elapsed) % WORD, nowMs)
            == if q == 0 then (t, None)
               else (t.(lastCycles := (boundary + elapsed - r) % WORD, tick := Saturated(t.tick + q)),
                     Some(TickEvent(Saturated(t.tick + q), Saturated(nowMs + Saturated(Times(t.periodMs, q))))))
  {
    hide Quot, Rem, Times, WrappingSub;
    var r := Rem(elapsed, t.periodCycles);
    WrapDifference(boundary + elapsed, boundary);
    WrapDifference(boundary + elapsed, r);
    Small(elapsed);
    Small(r);
    QuotZero(elapsed, t.periodCycles);
  }

  lemma {:induction false} Small(x: nat)
    requires x < WORD
    ensures x % WORD == x
  {}

  /** Counts stop at the largest 64-bit number. */
  lemma {:induction false} SaturatedIs(n: nat)
    ensures n <= 0xFFFF_FFFF_FFFF_FFFF ==> Saturated(n) == n
    ensures n > 0xFFFF_FFFF_FFFF_FFFF ==> Saturated(n) == 0xFFFF_FFFF_FFFF_FFFF
  {}

  lemma {:induction false} SaturatedAdd(n: nat, q: nat)
    ensures Saturated(Saturated(n) + q) == Saturated(n + q)
  {}

  /**
   A poll less than 2^64 cycles after the last boundary brings the timer exactly up to date: it has counted
   the whole periods since the baseline, and reports them when there are new ones.
   */
  lemma {:induction false} PollExact(t: Timer, base: nat, n: nat, time: nat, nowMs: nat)
    requires Synced(t, base, n) && t.enabled
    requires Boundary(base, t.periodCycles, n) <= time < Boundary(base, t.periodCycles, n) + WORD
    ensures var m := Periods(base, time, t.periodCycles);
            var (t', event) := Poll(t, time % WORD, nowMs);
            && n <= m && Synced(t', base, m) && t' == t.(tick := t'.tick, lastCycles := t'.lastCycles)
            && Boundary(base, t.periodCycles, m) <= time < Boundary(base, t.periodCycles, m) + t.periodCycles
            && event == if m == n then None else Some(TickEvent(Saturated(m), Saturated(nowMs + Saturated(Times(t.periodMs, m - n)))))
  {
    hide Poll, Boundary, Periods, Quot, Rem, Times;
    var p, boundary := t.periodCycles, Boundary(base, t.periodCycles, n);
    var e := time - boundary;
    BoundaryBefore(base, p, n, time);
    QuotRem(e, p);
    PollAt(t, boundary, e, nowMs);
    SaturatedAdd(n, Quot(e, p));
  }

  /** Wrapping loses periods, whatever the period: 2^64 cycles or more cannot be counted from the difference. */
  lemma {:induction false} WrappedCountsLess(e: nat, p: nat)
    requires 1 <= p < WORD <= e
    ensures Quot(e % WORD, p) < Quot(e, p)
  {
    hide Quot, Times, Rem;
    assert e - e % WORD == WORD * (e / WORD) >= WORD;
    TimesOne(p);
    QuotAdd(e - p, p, 1);
    QuotMonotone(e % WORD, e - p, p);
  }

  /**
   Polls are right exactly in time: an enabled timer that was up to date counts the whole periods since the baseline
   exactly when it is polled less than 2^64 cycles after its last boundary. (Once the true count no longer fits
   64 bits, a late poll can still end at the largest count.)
   */
  lemma {:induction false} PollRightIff(t: Timer, base: nat, n: nat, time: nat, nowMs: nat)
    requires Synced(t, base, n) && t.enabled && Boundary(base, t.periodCycles, n) <= time
    requires Periods(base, time, t.periodCycles) <= U64_MAX
    ensures Poll(t, time % WORD, nowMs).0.tick == Saturated(Periods(base, time, t.periodCycles))
            <==> time < Boundary(base, t.periodCycles, n) + WORD
  {
    hide Poll, Boundary, Periods, Quot, Rem, Times;
    var p, boundary := t.periodCycles, Boundary(base, t.periodCycles, n);
    var e := time - boundary;
    if e < WORD {
      PollExact(t, base, n, time, nowMs);
    } else {
      BoundaryBefore(base, p, n, time);
      WrappedCountsLess(e, p);
      ModShift(time, e / WORD);
      assert time - WORD * (e / WORD) == boundary + e % WORD;
      QuotRem(e % WORD, p);
      PollAt(t, boundary, e % WORD, nowMs);
    }
  }

  lemma {:induction false} TimesOne(p: nat)
    ensures Times(p, 1) == p
  {}

  lemma {:induction false} QuotMonotone(a: nat, b: nat, p: nat)
    requires a <= b && p >= 1
    ensures Quot(a, p) <= Quot(b, p)
  {
    QuotRem(a, p);
    QuotRem(b, p);
    hide Quot, Rem, Times;
    if Quot(b, p) < Quot(a, p) {
      TimesLess(p, Quot(b, p), Quot(a, p));
    }
  }

  // ----- whole runs -----

  /** A run of polls at the given times, the caller threading its millisecond clock. */
  function Run(t: Timer, times: seq<nat>, nowMs: nat): (Timer, nat)
    requires t.periodCycles >= 1
    decreases |times|
  {
    if times == [] then (t, nowMs)
    else
      var (t', event) := Poll(t, times[0] % WORD, nowMs);
      Run(t', times[1..], if event.Some? then event.value.nowMs else nowMs)
  }

  /** Times do not go back, and each poll comes within 2^64 cycles of the boundary the one before it left. */
  predicate Polled(base: nat, period: nat, n: nat, times: seq<nat>)
    requires period >= 1
    decreases |times|
  {
    times != [] ==>
      && Boundary(base, period, n) <= times[0] < Boundary(base, period, n) + WORD
      && Polled(base, period, Periods(base, times[0], period), times[1..])
  }

  lemma {:induction false} SaturatedSum(start: nat, ms: nat, n: nat, m: nat)
    requires n <= m
    ensures Saturated(Saturated(start + Times(ms, n)) + Saturated(Times(ms, m - n))) == Saturated(start + Times(ms, m))
  {
    TimesAdd(ms, n, m - n);
    hide Times;
  }

  /**
   The timer never drifts: after any run of polls, over any number of counter wraps, it has counted the whole
   periods since the baseline and the caller's clock has advanced by a period for each, both saturating.
   */
  lemma {:induction false} NeverDrifts(t: Timer, base: nat, n: nat, times: seq<nat>, start: nat)
    requires Synced(t, base, n) && t.enabled && times != [] && Polled(base, t.periodCycles, n, times)
    ensures var last := times[|times| - 1];
            base <= last
            && var m := Periods(base, last, t.periodCycles);
               var (t', nowMs) := Run(t, times, Saturated(start + Times(t.periodMs, n)));
               && t'.tick == Saturated(m)
               && nowMs == Saturated(start + Times(t.periodMs, m))
               && Boundary(base, t.periodCycles, m) <= last < Boundary(base, t.periodCycles, m) + t.periodCycles
    decreases |times|
  {
    BaseBefore(base, t.periodCycles, n);
    hide Poll, Boundary, Periods, Times, Quot, Rem;
    var time := times[0];
    var m := Periods(base, time, t.periodCycles);
    var now := Saturated(start + Times(t.periodMs, n));
    PollExact(t, base, n, time, now);
    SaturatedSum(start, t.periodMs, n, m);
    var (t', event) := Poll(t, time % WORD, now);
    assert (if event.Some? then event.value.nowMs else now) == Saturated(start + Times(t.periodMs, m));
    if |times| == 1 {
      assert times[1..] == [];
    } else {
      NeverDrifts(t', base, m, times[1..], start);
    }
  }

  lemma {:induction false} BaseBefore(base: nat, period: nat, n: nat)
    ensures base <= Boundary(base, period, n)
  {}

  /** Times do not go back, and each comes at most 2^64 cycles less one period after the one before it. */
  predicate Spaced(before: nat, period: nat, times: seq<nat>)
    decreases |times|
  {
    times != [] ==> before <= times[0] <= before + WORD - period && Spaced(times[0], period, times[1..])
  }

  /** Such spacing is enough, and looks at nothing but the times of the polls. */
  lemma {:induction false} SpacedIsPolled(base: nat, period: nat, n: nat, before: nat, times: seq<nat>)
    requires 1 <= period < WORD && Spaced(before, period, times)
    requires Boundary(base, period, n) <= before < Boundary(base, period, n) + period
    ensures Polled(base, period, n, times)
    decreases |times|
  {
    hide Boundary, Periods, Quot, Rem, Times;
    if times != [] {
      var time := times[0];
      BaseBefore(base, period, n);
      BoundaryBefore(base, period, n, time);
      QuotRem(time - Boundary(base, period, n), period);
      SpacedIsPolled(base, period, Periods(base, time, period), time, times[1..]);
    }
  }

  /** A new timer is up to date at its baseline. */
  lemma {:induction false} NewTimerIsSynced(freqHz: nat, periodMs: nat, base: nat)
    requires freqHz < WORD && periodMs < WORD
    ensures Synced(Timer(0, Max1(periodMs), PeriodCycles(freqHz, periodMs), base % WORD, true), base, 0)
  {
    TimesAdd(PeriodCycles(freqHz, periodMs), 0, 0);
    hide PeriodCycles;
  }

  /** A timer from its start: polls spaced like that never drift. */
  lemma {:induction false} NewTimerNeverDrifts(freqHz: nat, periodMs: nat, base: nat, times: seq<nat>, start: nat)
    requires freqHz < WORD && periodMs < WORD && start <= U64_MAX
    requires times != [] && Spaced(base, PeriodCycles(freqHz, periodMs), times)
    ensures var t := Timer(0, Max1(periodMs), PeriodCycles(freqHz, periodMs), base % WORD, true);
            var last := times[|times| - 1];
            base <= last
            && var m := Periods(base, last, t.periodCycles);
               var (t', nowMs) := Run(t, times, start);
               t'.tick == Saturated(m) && nowMs == Saturated(start + Times(t.periodMs, m))
  {
    var t := Timer(0, Max1(periodMs), PeriodCycles(freqHz, periodMs), base % WORD, true);
    NewTimerIsSynced(freqHz, periodMs, base);
    TimesAdd(t.periodCycles, 0, 0);
    TimesAdd(t.periodMs, 0, 0);
    assert Boundary(base, t.periodCycles, 0) == base;
    hide PeriodCycles, Max1, Run, Polled, Spaced, Times, Boundary, Periods;
    SpacedIsPolled(base, t.periodCycles, 0, base, times);
    NeverDrifts(t, base, 0, times, start);
  }

  /** A disabled timer never ticks. */
  lemma {:induction false} BypassNeverTicks(t: Timer, times: seq<nat>, nowMs: nat)
    requires t.periodCycles >= 1 && !t.enabled
    ensures Run(t, times, nowMs) == (t, nowMs)
    decreases |times|
  {
    if times != [] {
      BypassNeverTicks(t, times[1..], nowMs);
    }
  }

  /**
   That polls are less than 2^64 cycles apart is not enough. Polled partway into a period, any enabled timer counts
   nothing; polled again exactly 2^64 cycles after the boundary, it again counts nothing, though at least one
   period has passed.
   */
  lemma {:induction false} GapAloneIsNotEnough(t: Timer, base: nat, n: nat, e: nat, nowMs: nat)
    requires Synced(t, base, n) && t.enabled && 0 < e < t.periodCycles
    ensures var first := Boundary(base, t.periodCycles, n) + e;
            var second := Boundary(base, t.periodCycles, n) + WORD;
            && first < second < first + WORD
            && Run(t, [first, second], nowMs) == (t, nowMs)
            && n < Periods(base, second, t.periodCycles)
  {
    hide Poll, Boundary, Periods, Quot, Rem, Times;
    var p, boundary := t.periodCycles, Boundary(base, t.periodCycles, n);
    QuotRem(e, p);
    QuotRem(0, p);
    QuotZero(e, p);
    QuotZero(0, p);
    PollAt(t, boundary, e, nowMs);
    PollAt(t, boundary, 0, nowMs);
    ModShift(boundary + WORD, 1);
    BoundaryBefore(base, p, n, boundary + WORD);
    QuotZero(WORD, p);
    RunTwo(t, boundary + e, boundary + WORD, nowMs);
  }

  lemma {:induction false} RunTwo(t: Timer, first: nat, second: nat, nowMs: nat)
    requires t.periodCycles >= 1
    requires Poll(t, first % WORD, nowMs) == (t, None) && Poll(t, second % WORD, nowMs) == (t, None)
    ensures Run(t, [first, second], nowMs) == (t, nowMs)
  {
    hide Poll;
    assert [first, second][1..] == [second] && [second][1..] == [];
    assert Run(t, [second], nowMs) == (t, nowMs);
  }
}
