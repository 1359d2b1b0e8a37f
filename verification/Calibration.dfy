/** Calibrating the local APIC timer against the TSC or jiffies (arch/x86/kernel/apic/apic.c):
    `lapic_cal_handler`, `calibrate_by_pmtimer` and the polling loop of `calibrate_APIC_clock`. */
module Calibration {
  import opened Bits

  const PM_TICKS_PER_SEC: nat := 3579545
  const PM_100MS: nat := PM_TICKS_PER_SEC / 10
  const PM_THRESH: nat := PM_100MS / 100
  const PM_OVERRUN: nat := 0x100_0000
  const APIC_DIVISOR: nat := 16

  function ToLong(x: nat): int
    requires x < TWO64
  {
    if x < TWO63 then x else x - TWO64
  }

  function Minus64(a: nat, b: nat): (d: nat)
    requires a < TWO64 && b < TWO64
    ensures d < TWO64
  {
    (a - b) % TWO64
  }

  // Arithmetic of the results.

  /** The PM timer difference as the handler computes it from two 24-bit readings. */
  function PmDelta(pm1: nat, pm2: nat): nat
    requires pm1 < PM_OVERRUN && pm2 < PM_OVERRUN
  {
    (if pm2 < pm1 then pm2 + PM_OVERRUN else pm2) - pm1
  }

  /** It is the true number of ticks exactly when the counter went round less than once. */
  lemma PmDeltaTrue(ticks1: nat, ticks2: nat)
    requires ticks1 <= ticks2
    ensures PmDelta(ticks1 % PM_OVERRUN, ticks2 % PM_OVERRUN) == ticks2 - ticks1
       <==> ticks2 - ticks1 < PM_OVERRUN
  {
    var q1, q2 := ticks1 / PM_OVERRUN, ticks2 / PM_OVERRUN;
    assert ticks1 == q1 * PM_OVERRUN + ticks1 % PM_OVERRUN;
    assert ticks2 == q2 * PM_OVERRUN + ticks2 % PM_OVERRUN;
  }

  /** `res = (u64)value * pm_100ms; do_div(res, deltapm); (long)res` */
  function Scaled(value: nat, deltapm: nat): int
    requires 0 < deltapm
  {
    QuotientSmaller(value * PM_100MS % TWO64, deltapm);
    ToLong(value * PM_100MS % TWO64 / deltapm)
  }

  /** The scaled value is the exact floor quotient if and only if nothing overflows. */
  lemma ScaledExact(value: nat, deltapm: nat)
    requires 0 < deltapm < 0x1_0000_0000
    ensures Scaled(value, deltapm) == value * PM_100MS / deltapm
       <==> value * PM_100MS < TWO64 && value * PM_100MS / deltapm < TWO63
  {
    WrappedQuotient(value * PM_100MS, deltapm);
  }

  lemma WrappedQuotient(x: nat, d: nat)
    requires 0 < d < 0x1_0000_0000
    ensures x % TWO64 / d < TWO64
    ensures ToLong(x % TWO64 / d) == x / d <==> x < TWO64 && x / d < TWO63
  {
    var y := x % TWO64;
    DivMonotone(y, x, d);
    AddQuotient(y, d, 1);
    if x >= TWO64 {
      DivMonotone(y + d, x, d);
    }
    QuotientSmaller(y, d);
  }

  lemma QuotientSmaller(y: nat, d: nat)
    requires d > 0
    ensures y / d <= y
  {
    if y / d > 0 {
      MulGap(0, d, y / d);
    }
  }

  /** The correction does not overflow for a timer difference, which has 32 bits, nor for the TSC
      cycles of a second, as their frequency in kHz has 32 bits. */
  lemma DeltaFits(delta: nat, deltapm: nat)
    requires delta < 1000 * 0x1_0000_0000 && 0 < deltapm < 0x1_0000_0000
    ensures Scaled(delta, deltapm) == delta * PM_100MS / deltapm
  {
    hide Scaled;
    assert delta * PM_100MS < 1000 * 0x1_0000_0000 * PM_100MS;
    FitsExactly(delta, delta * PM_100MS, deltapm);
  }

  lemma FitsExactly(value: nat, x: nat, deltapm: nat)
    requires x == value * PM_100MS && x < TWO63 && 0 < deltapm < 0x1_0000_0000
    ensures Scaled(value, deltapm) == x / deltapm
  {
    hide Scaled;
    QuotientSmaller(x, deltapm);
    ScaledExact(value, deltapm);
  }

  /** What the environment shows: the true TSC time of poll `i`; of the handler's readings after
      poll `i`; the jiffies and the timer's and the PM timer's tick counts by true time. */
  datatype Env = Env(poll: nat -> nat, handle: nat -> nat, jiffies: nat -> nat, timer: nat -> nat,
                     pmTicks: nat -> nat)

  /** Polls follow each other by more than 0 and at most `gap`; readings are made before the next poll
      and at most `latency` after theirs. */
  ghost predicate PollsWithin(env: Env, gap: nat, latency: nat) {
    forall i: nat :: PollWithin(env, i, gap, latency)
  }

  ghost predicate PollWithin(env: Env, i: nat, gap: nat, latency: nat) {
    && env.poll(i) < env.poll(i + 1) <= env.poll(i) + gap
    && env.poll(i) <= env.handle(i) <= env.poll(i + 1)
    && env.handle(i) <= env.poll(i) + latency
  }

  /** A tick due at `due` ends at poll `i`: the first one not before it, hence less than a gap late,
      with the reading at most `latency` later. */
  ghost predicate TickAt(env: Env, i: nat, due: nat, gap: nat, latency: nat) {
    && 0 < i && env.poll(i - 1) < due <= env.poll(i) < due + gap
    && env.poll(i) <= env.handle(i) <= env.poll(i) + latency
  }

  /** When `k` jiffies are over. */
  function Due(start: nat, perJiffy: nat, k: nat): nat {
    start + k * perJiffy
  }

  /** Every tick so far has ended in time. */
  ghost predicate Ticks(env: Env, ticks: seq<nat>, start: nat, perJiffy: nat, gap: nat, latency: nat) {
    forall k :: 0 <= k < |ticks| ==> TickAt(env, ticks[k], Due(start, perJiffy, k + 1), gap, latency)
  }

  lemma NoTicks(env: Env, start: nat, perJiffy: nat, gap: nat, latency: nat)
    ensures Ticks(env, [], start, perJiffy, gap, latency) && Due(start, perJiffy, 0) == start
  {
  }

  lemma NextTick(env: Env, ticks: seq<nat>, i: nat, start: nat, perJiffy: nat, gap: nat, latency: nat)
    requires Ticks(env, ticks, start, perJiffy, gap, latency)
    requires TickAt(env, i, Due(start, perJiffy, |ticks|) + perJiffy, gap, latency)
    ensures Due(start, perJiffy, |ticks| + 1) == Due(start, perJiffy, |ticks|) + perJiffy
    ensures Ticks(env, ticks + [i], start, perJiffy, gap, latency)
  {
    hide TickAt;
  }

  /** `time_after(a, b)` */
  predicate TimeAfter(a: nat, b: nat)
    requires a < TWO64 && b < TWO64
  {
    ToLong(Minus64(b, a)) < 0
  }

  /** Jiffies advance by one every `perJiffy` from `base` on. */
  ghost predicate JiffiesAdvance(env: Env, base: nat, perJiffy: nat) {
    perJiffy > 0 && forall t: nat :: t >= base ==> env.jiffies(t) == env.jiffies(base) + (t - base) / perJiffy
  }

  /** The clock that ends ticks: the TSC, whose jiffies count from the first poll, or the kernel's
      jiffies, the last of which began at `base`. */
  ghost predicate Clocked(env: Env, useTsc: bool, tscPerJiffy: nat, base: nat, perJiffy: nat) {
    if useTsc then perJiffy == tscPerJiffy && base == env.poll(0)
    else JiffiesAdvance(env, base, perJiffy) && base <= env.poll(0) < base + perJiffy
  }

  /** Between `due` and two jiffies later, jiffies go up once, when the next tick is due. */
  ghost predicate JiffyEdge(env: Env, due: nat, perJiffy: nat) {
    forall t: nat :: due <= t < due + 2 * perJiffy ==>
      env.jiffies(t) == env.jiffies(due) + (if t >= due + perJiffy then 1 else 0)
  }

  lemma EdgeAt(env: Env, base: nat, perJiffy: nat, k: nat)
    requires JiffiesAdvance(env, base, perJiffy)
    ensures JiffyEdge(env, Due(base, perJiffy, k), perJiffy)
  {
    var due := Due(base, perJiffy, k);
    assert due - base == k * perJiffy;
    forall t: nat | due <= t < due + 2 * perJiffy
      ensures env.jiffies(t) == env.jiffies(due) + (if t >= due + perJiffy then 1 else 0)
    {
      AddQuotient(0, perJiffy, k);
      if t >= due + perJiffy {
        RemainderUnique(t - base, perJiffy, k + 1, t - due - perJiffy);
      } else {
        RemainderUnique(t - base, perJiffy, k, t - due);
      }
    }
  }

  /** The C variable that goes with the clock in use shows the time `due`. */
  predicate Shows(env: Env, useTsc: bool, tscStart: nat, jifStart: nat, due: nat) {
    if useTsc then tscStart == due % TWO64 else jifStart == env.jiffies(due) % TWO64
  }

  /** What the clock does in the two jiffies after `due`. */
  ghost predicate Edge(env: Env, useTsc: bool, tscPerJiffy: nat, due: nat, perJiffy: nat) {
    if useTsc then tscPerJiffy == perJiffy else JiffyEdge(env, due, perJiffy)
  }

  lemma ClockedEdge(env: Env, useTsc: bool, tscPerJiffy: nat, base: nat, perJiffy: nat, k: nat)
    requires Clocked(env, useTsc, tscPerJiffy, base, perJiffy)
    ensures Edge(env, useTsc, tscPerJiffy, Due(base, perJiffy, k), perJiffy)
  {
    hide Due, JiffyEdge, JiffiesAdvance;
    if !useTsc {
      EdgeAt(env, base, perJiffy, k);
    }
  }

  lemma ClockedStart(env: Env, useTsc: bool, tscPerJiffy: nat, base: nat, perJiffy: nat)
    requires Clocked(env, useTsc, tscPerJiffy, base, perJiffy) && perJiffy > 0
    ensures base <= env.poll(0) < base + perJiffy
    ensures Shows(env, useTsc, env.poll(0) % TWO64, env.jiffies(env.poll(0)) % TWO64, base)
  {
    if !useTsc {
      EdgeAt(env, base, perJiffy, 0);
      assert Due(base, perJiffy, 0) == base;
    }
  }

  /** One jiffy more is later, and none is not, also across a wrap of the 64-bit counter. */
  lemma OneJiffyLater(j: nat)
    ensures TimeAfter((j + 1) % TWO64, j % TWO64) && !TimeAfter(j % TWO64, j % TWO64)
  {
  }

  class Calibrator {
    const env: Env
    const loopsTotal: nat   // LAPIC_CAL_LOOPS
    const hasTsc: bool
    const start: nat        // of the down-counting timer
    var calLoops: int
    var t1: int
    var t2: int
    var tsc1: nat
    var tsc2: nat
    var pm1: nat
    var pm2: nat

    constructor (env: Env, hz: nat, hasTsc: bool, start: nat)
      requires hz >= 10
      ensures this.env == env && loopsTotal == hz / 10 && this.hasTsc == hasTsc && this.start == start
      ensures calLoops == -1 && pm1 < PM_OVERRUN
    {
      this.env := env;
      loopsTotal := hz / 10;
      this.hasTsc := hasTsc;
      this.start := start;
      calLoops := -1;
      t1, t2, tsc1, tsc2, pm1, pm2 := 0, 0, 0, 0, 0, 0;
    }

    function TimerAt(now: nat): int { start - env.timer(now) }
    function PmAt(now: nat): nat { env.pmTicks(now) % PM_OVERRUN }
    function TscAt(now: nat): nat { if hasTsc then now % TWO64 else 0 }

    /** The samples hold what was read at the given times. */
    predicate First(now: nat)
      reads this
    {
      t1 == TimerAt(now) && tsc1 == TscAt(now) && pm1 == PmAt(now)
    }

    predicate Second(now: nat)
      reads this
    {
      t2 == TimerAt(now) && tsc2 == TscAt(now)
      && pm1 < PM_OVERRUN && pm2 == pm1 + PmDelta(pm1, PmAt(now))
    }

    /** `lapic_cal_handler` at true time `now`. */
    method Handler(now: nat)
      requires loopsTotal >= 1 && pm1 < PM_OVERRUN
      modifies this
      ensures calLoops == old(calLoops) + 1 && pm1 < PM_OVERRUN
      ensures if old(calLoops) == 0 then First(now) else unchanged(this`t1, this`tsc1, this`pm1)
      ensures if old(calLoops) == loopsTotal then Second(now) else unchanged(this`t2, this`tsc2, this`pm2)
    {
      var tapic := TimerAt(now);
      var pm := PmAt(now);
      var tsc := TscAt(now);
      var loops := calLoops;
      calLoops := calLoops + 1;
      if loops == 0 {
        t1, tsc1, pm1 := tapic, tsc, pm;
      } else if loops == loopsTotal {
        t2, tsc2 := tapic, tsc;
        if pm < pm1 {
          pm := pm + PM_OVERRUN;
        }
        pm2 := pm;
      }
    }

    /** However often the handler is called from the start, the first sample is taken by call 2 and
        the second by call LAPIC_CAL_LOOPS + 2. */
    method HandlerCalls(times: seq<nat>)
      requires loopsTotal >= 1 && calLoops == -1 && pm1 < PM_OVERRUN
      modifies this
      ensures calLoops == |times| - 1
      ensures |times| >= 2 ==> First(times[1])
      ensures |times| >= loopsTotal + 2 ==> Second(times[loopsTotal + 1])
    {
      for i := 0 to |times|
        invariant calLoops == i - 1 && pm1 < PM_OVERRUN
        invariant i >= 2 ==> First(times[1])
        invariant i >= loopsTotal + 2 ==> Second(times[loopsTotal + 1])
      {
        Handler(times[i]);
      }
    }

    /** The polling loop of `calibrate_APIC_clock`, by the TSC or by jiffies.  Tick `k`, counted from 0,
        ends at poll `ticks[k]`, the first one not before the `k + 1`st jiffy after `base` is over, and
        so less than one gap later: lateness does not add up.  The samples are those of ticks 1 and
        LAPIC_CAL_LOOPS + 1. */
    method PollTicks(useTsc: bool, tscPerJiffy: nat, ghost base: nat, ghost perJiffy: nat,
                     ghost gap: nat, ghost latency: nat)
      returns (ghost ticks: seq<nat>)
      requires loopsTotal >= 1 && calLoops == -1 && pm1 < PM_OVERRUN
      requires Clocked(env, useTsc, tscPerJiffy, base, perJiffy)
      requires PollsWithin(env, gap, latency) && 0 < gap <= perJiffy < TWO63
      modifies this
      ensures calLoops == loopsTotal + 1 && |ticks| == loopsTotal + 2
      ensures Ticks(env, ticks, base, perJiffy, gap, latency)
      ensures First(env.handle(ticks[1])) && Second(env.handle(ticks[loopsTotal + 1]))
      ensures env.handle(ticks[1]) <= env.handle(ticks[loopsTotal + 1])
    {
      hide Minus64, TimerAt, PmAt, TscAt, PmDelta, Ticks, Due, Clocked, Edge, Shows;
      var i := 0;
      var tscStart: nat, jifStart: nat := env.poll(0) % TWO64, env.jiffies(env.poll(0)) % TWO64;
      ghost var due := base;
      ghost var at1: nat, at2: nat := 0, 0;
      ticks := [];
      NoTicks(env, base, perJiffy, gap, latency);
      ClockedStart(env, useTsc, tscPerJiffy, base, perJiffy);
      while calLoops <= loopsTotal
        invariant -1 <= calLoops <= loopsTotal + 1 && pm1 < PM_OVERRUN && |ticks| == calLoops + 1
        invariant due == Due(base, perJiffy, |ticks|) && due <= env.poll(i) < due + perJiffy
        invariant Shows(env, useTsc, tscStart, jifStart, due)
        invariant Ticks(env, ticks, base, perJiffy, gap, latency)
        invariant calLoops >= 1 ==> First(at1) && at1 == env.handle(ticks[1]) && at1 <= env.poll(i + 1)
        invariant calLoops >= loopsTotal + 1 ==>
          Second(at2) && at2 == env.handle(ticks[loopsTotal + 1]) && at1 <= at2
        decreases loopsTotal + 1 - calLoops
      {
        ClockedEdge(env, useTsc, tscPerJiffy, base, perJiffy, |ticks|);
        i, tscStart, jifStart :=
          WaitForTick(useTsc, tscPerJiffy, i, tscStart, jifStart, due, perJiffy, gap, latency);
        NextTick(env, ticks, i, base, perJiffy, gap, latency);
        due := due + perJiffy;
        ticks := ticks + [i];
        ghost var now := env.handle(i);
        if calLoops == 0 { at1 := now; }
        if calLoops == loopsTotal { at2 := now; }
        assert PollWithin(env, i, gap, latency);
        Handler(env.handle(i));
      }
    }

    /** The inner loop: polls until a jiffy has elapsed since `tscStart`, which then moves on by exactly
        a jiffy, or until jiffies are past `jifStart`, which then is one more. */
    method WaitForTick(useTsc: bool, tscPerJiffy: nat, from: nat, tscFrom: nat, jifFrom: nat,
                       ghost due: nat, ghost perJiffy: nat, ghost gap: nat, ghost latency: nat)
      returns (i: nat, tscStart: nat, jifStart: nat)
      requires PollsWithin(env, gap, latency) && 0 < gap <= perJiffy < TWO63
      requires due <= env.poll(from) < due + perJiffy
      requires Edge(env, useTsc, tscPerJiffy, due, perJiffy) && Shows(env, useTsc, tscFrom, jifFrom, due)
      ensures Shows(env, useTsc, tscStart, jifStart, due + perJiffy)
      ensures TickAt(env, i, due + perJiffy, gap, latency)
      ensures env.poll(from + 1) <= env.poll(i) < env.poll(i + 1)
    {
      hide Minus64, TimeAfter;
      i, tscStart, jifStart := from, tscFrom, jifFrom;
      while true
        invariant tscStart == tscFrom && jifStart == jifFrom
        invariant due <= env.poll(i) < due + perJiffy
        invariant i == from || env.poll(from + 1) <= env.poll(i)
        decreases due + perJiffy - env.poll(i)
      {
        assert PollWithin(env, i, gap, latency);
        i := i + 1;
        if useTsc {
          Elapsed(due, env.poll(i));
          if Minus64(env.poll(i) % TWO64, tscStart) >= tscPerJiffy {
            tscStart := (tscStart + tscPerJiffy) % TWO64;
            AddWraps(due, perJiffy);
            assert PollWithin(env, i, gap, latency);
            return;
          }
        } else {
          var jifNow := env.jiffies(env.poll(i)) % TWO64;
          OneJiffyLater(env.jiffies(due));
          if TimeAfter(jifNow, jifStart) {
            jifStart := jifNow;
            assert PollWithin(env, i, gap, latency);
            return;
          }
        }
      }
    }

    /** `calibrate_by_pmtimer`: without a PM timer, or if it confirms 100 ms to within 1 %, the values
        are kept; otherwise both are scaled to 100 ms of PM timer time, exactly unless 64 bits
        overflow.  Either way they end up within 1 % of the scaled ones, and rounding. */
    method CalibrateByPmtimer(deltapm: nat, delta: int, deltatsc: int)
      returns (rc: int, delta': int, deltatsc': int)
      requires deltapm < 0x1_0000_0000
      ensures rc == if deltapm == 0 then -1 else 0
      ensures deltapm == 0 || 354376 <= deltapm <= 361532 ==> delta' == delta && deltatsc' == deltatsc
      ensures deltapm > 0 && !(354376 <= deltapm <= 361532) && 0 <= delta <= 0xFFFF_FFFF ==>
        delta' == delta * 357954 / deltapm
      ensures 0 <= delta <= 0xFFFF_FFFF ==> delta' == Adjusted(delta, deltapm)
      ensures deltapm > 0 && 0 <= delta <= 0xFFFF_FFFF ==> NearScaled(delta, delta', deltapm)
      ensures deltapm > 0 && !(354376 <= deltapm <= 361532) && hasTsc && 0 <= deltatsc < TWO63 ==>
        (deltatsc' == deltatsc * 357954 / deltapm
         <==> deltatsc * PM_100MS < TWO64 && deltatsc * PM_100MS / deltapm < TWO63)
      ensures hasTsc && 0 <= deltatsc < 1000 * 0x1_0000_0000 ==> deltatsc' == Adjusted(deltatsc, deltapm)
      ensures deltapm > 0 && hasTsc && 0 <= deltatsc < 1000 * 0x1_0000_0000 ==>
        NearScaled(deltatsc, deltatsc', deltapm)
      ensures !hasTsc ==> deltatsc' == deltatsc
    {
      rc, delta', deltatsc' := 0, delta, deltatsc;
      if deltapm == 0 { return -1, delta, deltatsc; }
      hide NearScaled;
      if delta >= 0 { AdjustedNear(delta, deltapm); }
      if deltatsc >= 0 { AdjustedNear(deltatsc, deltapm); }
      if PM_100MS - PM_THRESH < deltapm < PM_100MS + PM_THRESH { return; }
      hide Corrected;
      CorrectedExact(delta, deltapm);
      CorrectedExact(deltatsc, deltapm);
      delta' := Corrected(delta, deltapm);
      if hasTsc {
        deltatsc' := Corrected(deltatsc, deltapm);
      }
    }

    /** `calibrate_APIC_clock` up to its sanity check.  The period comes from the timer ticks counted
        between the readings at `at1` and `at2` and the clock speed from the TSC cycles between them, both
        scaled to the PM timer unless that is absent or agrees; nothing overflows.  The readings lie
        LAPIC_CAL_LOOPS jiffies apart up to a polling gap and a latency.  If the timer's true rate is
        `num / den` ticks per TSC cycle, the uncorrected period is right up to those and rounding, and the
        corrected one, for a PM timer at `pmNum / pmDen`, up to a tick of each and rounding. */
    method CalibrateClock(tscKhz: nat, hz: nat, ghost base: nat, ghost perJiffy: nat, ghost gap: nat,
                          ghost latency: nat, ghost num: nat, ghost den: nat, ghost pmNum: nat, ghost pmDen: nat)
      returns (rc: int, period: nat, deltatsc: int, pmReferenced: bool, ghost at1: nat, ghost at2: nat)
      requires hz >= 10 && loopsTotal == hz / 10 && calLoops == -1 && pm1 < PM_OVERRUN
      requires Clocked(env, tscKhz != 0, PerJiffy(tscKhz, hz), base, perJiffy)
      requires tscKhz < 0x1_0000_0000 && (tscKhz == 0 ==> perJiffy * hz <= 1000 * 0xFFFF_FFFF)
      requires PollsWithin(env, gap, latency) && latency <= gap && 0 < gap <= perJiffy
      requires CountsDown(env, start, base + (loopsTotal + 2) * perJiffy + gap + latency)
      requires den > 0 && Linear(env.timer, num, den)
      modifies this
      ensures rc == if period < 1000000 / hz then -1 else 0
      ensures InWindow(at2 - at1, loopsTotal * perJiffy, gap + latency)
      ensures var counted, deltapm := env.timer(at2) - env.timer(at1), PmDelta(PmAt(at1), PmAt(at2));
        && (pmReferenced <==> deltapm != 0)
        && period == PeriodOf(Adjusted(counted, deltapm), loopsTotal)
        && deltatsc == (if hasTsc then Adjusted(at2 - at1, deltapm) else 0)
        && PeriodWithin(PeriodOf(counted, loopsTotal), loopsTotal, perJiffy, gap + latency, num, den)
        && RightRate(env, period, loopsTotal, at1, at2, num, den, pmNum, pmDen)
    {
      hide PeriodWithin, PeriodOf, Linear, PollsWithin, CountsDown, Minus64, Second, First, PmDelta, Adjusted, PerJiffy,
           Clocked, RightRate;
      ClockFits(env, tscKhz, hz, base, perJiffy);
      ghost var ticks := PollTicks(tscKhz != 0, PerJiffy(tscKhz, hz), base, perJiffy, gap, latency);
      at1, at2 := env.handle(ticks[1]), env.handle(ticks[loopsTotal + 1]);
      assert TickAt(env, ticks[1], Due(base, perJiffy, 2), gap, latency);
      assert TickAt(env, ticks[loopsTotal + 1], Due(base, perJiffy, loopsTotal + 2), gap, latency);
      CalibratedPeriod(env, start, base, at1, at2, loopsTotal, perJiffy, gap + latency, num, den);
      SampledDeltas(at1, at2);
      var delta := t1 - t2;
      deltatsc := ToLong(Minus64(tsc2, tsc1));
      var pmDelta := pm2 - pm1;
      CorrectedPeriod(env, loopsTotal, at1, at2, num, den, pmNum, pmDen);
      var pmrc: int;
      pmrc, delta, deltatsc := CalibrateByPmtimer(pmDelta, delta, deltatsc);
      pmReferenced := pmrc == 0;
      period := PeriodOf(delta, loopsTotal);
      rc := if period < 1000000 / hz then -1 else 0;
    }

    lemma SampledDeltas(at1: nat, at2: nat)
      requires First(at1) && Second(at2) && at1 <= at2 < at1 + TWO63
      ensures t1 - t2 == env.timer(at2) - env.timer(at1)
      ensures 0 <= pm2 - pm1 == PmDelta(PmAt(at1), PmAt(at2)) < PM_OVERRUN
      ensures tsc1 < TWO64 && tsc2 < TWO64
      ensures ToLong(Minus64(tsc2, tsc1)) == if hasTsc then at2 - at1 else 0
    {
      hide Minus64;
      if hasTsc {
        Elapsed(at1, at2);
      } else {
        Elapsed(0, 0);
      }
    }
  }

  /** A difference as corrected with the PM timer, if that counted anything and disagrees. */
  function Adjusted(value: int, deltapm: nat): int {
    if deltapm == 0 || PmConfirms(deltapm) then value else value * PM_100MS / deltapm
  }

  /** `value'` is `value * PM_100MS / deltapm` up to 1 % of it and rounding down. */
  predicate NearScaled(value: nat, value': int, deltapm: nat) {
    -(value * PM_100MS) - 100 * deltapm <= 100 * (value' * deltapm - value * PM_100MS) <= value * PM_100MS
  }

  /** Kept or scaled, a difference is within 1 % of the scaled one. */
  lemma AdjustedNear(value: nat, deltapm: nat)
    requires deltapm > 0
    ensures NearScaled(value, Adjusted(value, deltapm), deltapm)
    ensures Adjusted(value, deltapm) ==
      if 354376 <= deltapm <= 361532 then value else value * 357954 / deltapm
  {
    if PmConfirms(deltapm) {
      MulLe(value, deltapm, PM_100MS + PM_THRESH - 1);
      MulLe(value, PM_100MS - PM_THRESH + 1, deltapm);
    } else {
      FloorQuotient(value * PM_100MS, deltapm);
    }
  }

  /** `div_u64((u64)tsc_khz * 1000, HZ)`: TSC cycles in a jiffy. */
  function PerJiffy(tscKhz: nat, hz: nat): nat
    requires hz > 0
  {
    tscKhz * 1000 / hz
  }

  /** A jiffy is its share of the second, rounded down, and 100 ms of jiffies are 100 ms of TSC cycles up
      to a cycle for each jiffy. */
  lemma JiffyOfSecond(tscKhz: nat, hz: nat)
    requires hz > 0
    ensures tscKhz * 1000 - hz < PerJiffy(tscKhz, hz) * hz <= tscKhz * 1000
    ensures hz % 10 == 0 ==> tscKhz * 100 - hz / 10 < hz / 10 * PerJiffy(tscKhz, hz) <= tscKhz * 100
  {
    FloorQuotient(tscKhz * 1000, hz);
    var perJiffy := PerJiffy(tscKhz, hz);
    if hz % 10 == 0 {
      assert perJiffy * hz == 10 * (hz / 10 * perJiffy);
    }
  }

  predicate InWindow(window: int, centre: int, spread: nat) {
    centre - spread < window < centre + spread
  }

  /** Even with the ticks before the first sample, calibration takes at most a second of TSC cycles. */
  lemma WindowFits(perJiffy: nat, hz: nat)
    requires hz >= 10 && perJiffy * hz <= 1000 * 0xFFFF_FFFF
    ensures perJiffy <= (hz / 10 + 2) * perJiffy <= 1000 * 0xFFFF_FFFF
  {
    MulLe(perJiffy, 1, hz / 10 + 2);
    MulLe(perJiffy, hz / 10 + 2, hz);
  }

  lemma ClockFits(env: Env, tscKhz: nat, hz: nat, base: nat, perJiffy: nat)
    requires hz >= 10 && Clocked(env, tscKhz != 0, PerJiffy(tscKhz, hz), base, perJiffy)
    requires tscKhz < 0x1_0000_0000 && (tscKhz == 0 ==> perJiffy * hz <= 1000 * 0xFFFF_FFFF)
    ensures perJiffy <= (hz / 10 + 2) * perJiffy <= 1000 * 0xFFFF_FFFF
  {
    if tscKhz != 0 {
      assert perJiffy == tscKhz * 1000 / hz;
      assert perJiffy * hz <= tscKhz * 1000;
    }
    WindowFits(perJiffy, hz);
  }

  predicate PmConfirms(deltapm: nat) { PM_100MS - PM_THRESH < deltapm < PM_100MS + PM_THRESH }

  /** The correction of a signed difference, taken as an unsigned word. */
  function Corrected(value: int, deltapm: nat): int
    requires 0 < deltapm
  {
    Scaled(value % TWO64, deltapm)
  }

  lemma CorrectedExact(value: int, deltapm: nat)
    requires 0 < deltapm < 0x1_0000_0000
    ensures 0 <= value < 1000 * 0x1_0000_0000 ==> Corrected(value, deltapm) == value * PM_100MS / deltapm
    ensures 0 <= value < TWO64 ==>
      (Corrected(value, deltapm) == value * PM_100MS / deltapm
       <==> value * PM_100MS < TWO64 && value * PM_100MS / deltapm < TWO63)
  {
    hide Scaled;
    if 0 <= value < TWO64 {
      assert value % TWO64 == value;
      ScaledExact(value, deltapm);
      if value < 1000 * 0x1_0000_0000 {
        DeltaFits(value, deltapm);
      }
    }
  }

  /** The counter does not reach zero before `horizon`; it starts from 0xffffffff / 16. */
  ghost predicate CountsDown(env: Env, start: nat, horizon: int) {
    start <= 0xFFF_FFFF && forall t: nat :: t <= horizon ==> env.timer(t) <= start
  }

  /** A counter runs at `num / den` ticks per TSC cycle. */
  ghost predicate Linear(count: nat -> nat, num: nat, den: nat) {
    forall t: nat, u: nat :: t <= u ==>
      num * (u - t) - den < den * (count(u) - count(t)) < num * (u - t) + den
  }

  /** The PM timer runs at `num / den` ticks per TSC cycle, and went round less than once. */
  ghost predicate PmTrue(env: Env, at1: nat, at2: nat, num: nat, den: nat) {
    && num > 0 && den > 0 && Linear(env.pmTicks, num, den)
    && at1 <= at2 && env.pmTicks(at1) <= env.pmTicks(at2) < env.pmTicks(at1) + PM_OVERRUN
  }

  /** `(delta * APIC_DIVISOR) / LAPIC_CAL_LOOPS`, as an unsigned 32-bit number. */
  function PeriodOf(delta: int, loops: nat): nat
    requires loops > 0
  {
    delta * APIC_DIVISOR / loops % 0x1_0000_0000
  }

  ghost predicate PeriodWithin(period: nat, loops: nat, perJiffy: nat, spread: nat, num: nat, den: nat) {
    var error := den * (loops * period) - APIC_DIVISOR * (num * (loops * perJiffy));
    -(APIC_DIVISOR * (num * spread + den)) - den * loops < error < APIC_DIVISOR * (num * spread + den)
  }

  lemma TimerDelta(env: Env, start: nat, at1: nat, at2: nat, num: nat, den: nat)
    requires den > 0 && Linear(env.timer, num, den) && CountsDown(env, start, at2) && at1 <= at2
    ensures var delta := env.timer(at2) - env.timer(at1);
      0 <= delta <= 0xFFF_FFFF && num * (at2 - at1) - den < den * delta < num * (at2 - at1) + den
  {
    var delta := env.timer(at2) - env.timer(at1);
    if delta < 0 {
      MulLe(den, delta, -1);
    }
  }

  lemma CalibratedPeriod(env: Env, start: nat, base: nat, at1: nat, at2: nat, loops: nat, perJiffy: nat,
                         spread: nat, num: nat, den: nat)
    requires loops > 0 && den > 0 && Linear(env.timer, num, den) && at1 <= at2
    requires CountsDown(env, start, base + (loops + 2) * perJiffy + spread)
    requires base + 2 * perJiffy <= at1 < base + 2 * perJiffy + spread
    requires base + (loops + 2) * perJiffy <= at2 < base + (loops + 2) * perJiffy + spread
    ensures InWindow(at2 - at1, loops * perJiffy, spread)
    ensures var delta := env.timer(at2) - env.timer(at1);
      && 0 <= delta <= 0xFFF_FFFF
      && PeriodWithin(PeriodOf(delta, loops), loops, perJiffy, spread, num, den)
  {
    hide PeriodWithin, PeriodOf, Linear;
    assert (loops + 2) * perJiffy == loops * perJiffy + 2 * perJiffy;
    TimerDelta(env, start, at1, at2, num, den);
    PeriodBound(env.timer(at2) - env.timer(at1), at2 - at1, loops, perJiffy, spread, num, den);
  }

  lemma MulLe(k: nat, x: int, y: int)
    requires x <= y
    ensures k * x <= k * y
  {
    assert k * y == k * x + k * (y - x);
  }

  lemma PeriodBound(delta: nat, window: nat, loops: nat, perJiffy: nat, spread: nat, num: nat, den: nat)
    requires loops > 0 && den > 0 && delta <= 0xFFF_FFFF
    requires InWindow(window, loops * perJiffy, spread)
    requires num * window - den < den * delta < num * window + den
    ensures PeriodWithin(PeriodOf(delta, loops), loops, perJiffy, spread, num, den)
  {
    hide PeriodOf;
    QuotientSmaller(delta * APIC_DIVISOR, loops);
    var r := PeriodIsQuotient(delta, loops);
    Spread(num, window, loops * perJiffy, spread);
    Expand(den, delta, r);
    MulLe(den, r, loops);
    MulLe(den, 0, r);
  }

  /** The period is not cut off at 32 bits. */
  predicate PeriodFits(delta: int, loops: nat)
    requires loops > 0
  {
    0 <= delta && delta * APIC_DIVISOR / loops < 0x1_0000_0000
  }

  lemma PeriodIsQuotient(delta: nat, loops: nat) returns (r: nat)
    requires loops > 0 && PeriodFits(delta, loops)
    ensures r < loops && loops * PeriodOf(delta, loops) == delta * APIC_DIVISOR - r
  {
    var ticks := delta * APIC_DIVISOR;
    r := ticks % loops;
    assert ticks == loops * (ticks / loops) + r;
    RemainderUnique(ticks / loops, 0x1_0000_0000, 0, ticks / loops);
  }

  /** How far a corrected period may be from the true one.  In 100 ms of PM timer time the timer truly
      ticks `PM_100MS * (num / den) / (pmNum / pmDen)` times.  Cleared of denominators, the error is at
      most a tick of each counter in the `deltapm` PM ticks measured, and rounding twice; neither the
      polling nor the frequency of the TSC or jiffies matters. */
  ghost predicate CorrectedWithin(period: nat, loops: nat, deltapm: nat, num: nat, den: nat, pmNum: nat, pmDen: nat) {
    var error := den * pmNum * (loops * period) - APIC_DIVISOR * (PM_100MS * (num * pmDen));
    var tick := APIC_DIVISOR * (PM_100MS * (pmNum * den + num * pmDen));
    -tick - den * pmNum * ((APIC_DIVISOR + loops) * deltapm) < error * deltapm < tick
  }

  /** The same with 1 % more, for a count that may have been kept. */
  ghost predicate NearWithin(period: nat, loops: nat, counted: nat, deltapm: nat,
                             num: nat, den: nat, pmNum: nat, pmDen: nat) {
    var d, tick := den * pmNum, APIC_DIVISOR * (PM_100MS * (pmNum * den + num * pmDen));
    var error := d * (loops * period) - APIC_DIVISOR * (PM_100MS * (num * pmDen));
    var percent := APIC_DIVISOR * (d * (counted * PM_100MS));
    -(100 * tick) - percent - 100 * (d * ((APIC_DIVISOR + loops) * deltapm)) < 100 * (error * deltapm)
    < 100 * tick + percent
  }

  lemma Expand(den: nat, delta: nat, r: nat)
    ensures den * (delta * APIC_DIVISOR - r) == APIC_DIVISOR * (den * delta) - den * r
  {
  }

  lemma Spread(num: nat, window: int, centre: int, d: nat)
    requires centre - d <= window <= centre + d
    ensures num * centre - num * d <= num * window <= num * centre + num * d
  {
    MulLe(num, window, centre + d);
    MulLe(num, centre - d, window);
    assert num * (centre + d) == num * centre + num * d;
    assert num * (centre - d) == num * centre - num * d;
  }

  /** The algebra of the correction: `c` ticks and `p` PM ticks were counted in `window` cycles, and `a`
      is `c * PM_100MS / p` up to an error of `delta / p`. */
  lemma CorrectionError(c: nat, p: nat, window: nat, a: nat, delta: int, num: nat, den: nat, pmNum: nat, pmDen: nat)
    requires den > 0 && pmDen > 0 && pmNum > 0 && a * p == c * PM_100MS + delta
    requires num * window - den < den * c < num * window + den
    requires pmNum * window - pmDen < pmDen * p < pmNum * window + pmDen
    ensures var tick := PM_100MS * (pmNum * den + num * pmDen);
      -tick < (den * pmNum * a - PM_100MS * (num * pmDen)) * p - den * pmNum * delta < tick
  {
    var x, y := den * c - num * window, pmDen * p - pmNum * window;
    ErrorTerms(c, p, window, a, delta, num, den, pmNum, pmDen);
    ScaledBound(pmNum, x, den);
    ScaledBound(num, y, pmDen);
    SumOfErrors(pmNum * x, pmNum * den, num * y, num * pmDen);
  }

  lemma ScaledBound(k: nat, x: int, d: int)
    requires -d < x < d
    ensures -(k * d) <= k * x <= k * d
    ensures k > 0 ==> -(k * d) < k * x < k * d
  {
    MulLe(k, x, d - 1);
    MulLe(k, 1 - d, x);
    assert k * (d - 1) == k * d - k && k * (1 - d) == k - k * d;
  }

  lemma SumOfErrors(u: int, u': int, v: int, v': int)
    requires -u' < u < u' && -v' <= v <= v'
    ensures -(PM_100MS * (u' + v')) < PM_100MS * u - PM_100MS * v < PM_100MS * (u' + v')
  {
  }

  lemma ErrorTerms(c: nat, p: nat, window: nat, a: nat, delta: int, num: nat, den: nat, pmNum: nat, pmDen: nat)
    requires a * p == c * PM_100MS + delta
    ensures (den * pmNum * a - PM_100MS * (num * pmDen)) * p - den * pmNum * delta
         == PM_100MS * (pmNum * (den * c - num * window)) - PM_100MS * (num * (pmDen * p - pmNum * window))
  {
    assert den * pmNum * a * p == den * pmNum * (c * PM_100MS + delta);
  }

  /** The second rounding, from the ticks in 100 ms to the period. */
  lemma RoundedError(d: nat, a: nat, r: nat, k: int, p: nat, loops: nat)
    requires r < loops
    ensures var before, after := (d * a - k) * p, (d * (APIC_DIVISOR * a - r) - APIC_DIVISOR * k) * p;
      APIC_DIVISOR * before - d * (loops * p) <= after <= APIC_DIVISOR * before
  {
    RoundedTerms(d, a, r, k, p, loops);
    MulLe(d * p, r, loops);
    MulLe(d * p, 0, r);
  }

  lemma RoundedTerms(d: nat, a: nat, r: nat, k: int, p: nat, loops: nat)
    ensures (d * (APIC_DIVISOR * a - r) - APIC_DIVISOR * k) * p == APIC_DIVISOR * ((d * a - k) * p) - d * p * r
    ensures d * (loops * p) == d * p * loops
  {
  }

  /** The error of the period, before it is known how far `a` is from the scaled count. */
  lemma PeriodError(c: nat, p: nat, window: nat, a: nat, delta: int, loops: nat,
                    num: nat, den: nat, pmNum: nat, pmDen: nat)
    requires loops > 0 && den > 0 && pmNum > 0 && pmDen > 0
    requires a * p == c * PM_100MS + delta && PeriodFits(a, loops)
    requires num * window - den < den * c < num * window + den
    requires pmNum * window - pmDen < pmDen * p < pmNum * window + pmDen
    ensures var d, tick := den * pmNum, APIC_DIVISOR * (PM_100MS * (pmNum * den + num * pmDen));
      var error := (d * (loops * PeriodOf(a, loops)) - APIC_DIVISOR * (PM_100MS * (num * pmDen))) * p;
      -tick - d * (loops * p) < error - APIC_DIVISOR * (d * delta) < tick
  {
    hide PeriodOf, PeriodFits;
    CorrectionError(c, p, window, a, delta, num, den, pmNum, pmDen);
    var r := PeriodIsQuotient(a, loops);
    RoundedError(den * pmNum, a, r, PM_100MS * (num * pmDen), p, loops);
    assert APIC_DIVISOR * a - r == loops * PeriodOf(a, loops);
  }

  lemma CorrectedRate(c: nat, p: nat, window: nat, a: nat, r: nat, loops: nat,
                      num: nat, den: nat, pmNum: nat, pmDen: nat)
    requires loops > 0 && den > 0 && pmNum > 0 && pmDen > 0
    requires r < p && a * p == c * PM_100MS - r && PeriodFits(a, loops)
    requires num * window - den < den * c < num * window + den
    requires pmNum * window - pmDen < pmDen * p < pmNum * window + pmDen
    ensures CorrectedWithin(PeriodOf(a, loops), loops, p, num, den, pmNum, pmDen)
  {
    hide PeriodOf, PeriodFits;
    var delta: int := 0 - r;
    PeriodError(c, p, window, a, delta, loops, num, den, pmNum, pmDen);
    Distribute(den * pmNum, delta, c * PM_100MS, p, loops);
    MulLe(den * pmNum, 0 - p, delta);
    MulLe(den * pmNum, delta, 0);
  }

  lemma NearRate(c: nat, p: nat, window: nat, a: nat, loops: nat, num: nat, den: nat, pmNum: nat, pmDen: nat)
    requires loops > 0 && den > 0 && pmNum > 0 && pmDen > 0
    requires NearScaled(c, a, p) && PeriodFits(a, loops)
    requires num * window - den < den * c < num * window + den
    requires pmNum * window - pmDen < pmDen * p < pmNum * window + pmDen
    ensures NearWithin(PeriodOf(a, loops), loops, c, p, num, den, pmNum, pmDen)
  {
    hide PeriodOf, PeriodFits;
    var d, delta := den * pmNum, a * p - c * PM_100MS;
    PeriodError(c, p, window, a, delta, loops, num, den, pmNum, pmDen);
    Distribute(d, delta, c * PM_100MS, p, loops);
    MulLe(d, 100 * delta, c * PM_100MS);
    MulLe(d, -(c * PM_100MS) - 100 * p, 100 * delta);
  }

  lemma Distribute(d: nat, delta: int, x: int, p: int, loops: nat)
    ensures d * (100 * delta) == 100 * (d * delta)
    ensures d * (-x - 100 * p) == -(d * x) - 100 * (d * p)
    ensures d * (0 - p) == -(d * p)
    ensures d * ((APIC_DIVISOR + loops) * p) == APIC_DIVISOR * (d * p) + d * (loops * p)
  {
  }

  /** The period for a true PM timer that has counted: within 1 % of the true one besides the error of
      the correction, and within that alone where the count was corrected. */
  ghost predicate RightRate(env: Env, period: nat, loops: nat, at1: nat, at2: nat,
                            num: nat, den: nat, pmNum: nat, pmDen: nat)
    requires loops > 0
  {
    var counted := env.timer(at2) - env.timer(at1);
    var deltapm := PmDelta(env.pmTicks(at1) % PM_OVERRUN, env.pmTicks(at2) % PM_OVERRUN);
    && counted >= 0 && deltapm != 0
    && PeriodFits(Adjusted(counted, deltapm), loops)
    && PmTrue(env, at1, at2, pmNum, pmDen)
    ==>
      && NearWithin(period, loops, counted, deltapm, num, den, pmNum, pmDen)
      && (deltapm < 354376 || 361532 < deltapm ==>
            CorrectedWithin(period, loops, deltapm, num, den, pmNum, pmDen))
  }

  lemma CorrectedPeriod(env: Env, loops: nat, at1: nat, at2: nat, num: nat, den: nat, pmNum: nat, pmDen: nat)
    requires loops > 0 && den > 0 && Linear(env.timer, num, den) && env.timer(at1) <= env.timer(at2)
    ensures var deltapm := PmDelta(env.pmTicks(at1) % PM_OVERRUN, env.pmTicks(at2) % PM_OVERRUN);
      var period := PeriodOf(Adjusted(env.timer(at2) - env.timer(at1), deltapm), loops);
      RightRate(env, period, loops, at1, at2, num, den, pmNum, pmDen)
  {
    hide PeriodOf, PeriodFits, PmDelta, CorrectedWithin, NearWithin, NearScaled, Adjusted;
    if PmTrue(env, at1, at2, pmNum, pmDen) {
      PmDeltaTrue(env.pmTicks(at1), env.pmTicks(at2));
      var c: nat, p: nat := env.timer(at2) - env.timer(at1), env.pmTicks(at2) - env.pmTicks(at1);
      if p != 0 && PeriodFits(Adjusted(c, p), loops) {
        AdjustedNear(c, p);
        FitsNatural(Adjusted(c, p), loops);
        NearRate(c, p, at2 - at1, Adjusted(c, p), loops, num, den, pmNum, pmDen);
        if p < 354376 || 361532 < p {
          FloorQuotient(c * PM_100MS, p);
          CorrectedRate(c, p, at2 - at1, c * PM_100MS / p, c * PM_100MS % p, loops, num, den, pmNum, pmDen);
        }
      }
    }
  }

  lemma FitsNatural(a: int, loops: nat)
    requires loops > 0 && PeriodFits(a, loops)
    ensures a >= 0
  {
  }

  lemma FloorQuotient(x: nat, d: nat)
    requires d > 0
    ensures 0 <= x / d && 0 <= x % d < d && x / d * d == x - x % d
  {
  }

  /** The assumptions on the clocks can be met together, with either clock ending the ticks. */
  lemma AssumptionsConsistent(perJiffy: nat, loops: nat)
    requires perJiffy > 0 && (loops + 2) * perJiffy < 0xFFF_FFFF
    ensures exists env: Env ::
      && PollsWithin(env, 1, 0) && Linear(env.timer, 1, 1) && Linear(env.pmTicks, 1, 1)
      && Clocked(env, true, perJiffy, 0, perJiffy) && Clocked(env, false, 0, 0, perJiffy)
      && CountsDown(env, 0xFFF_FFFF, (loops + 2) * perJiffy + 1)
  {
    var env := Env(i => i, i => i, t => Jiffies(t, perJiffy), t => t, t => t);
    assert PollsWithin(env, 1, 0) && Linear(env.timer, 1, 1) && Linear(env.pmTicks, 1, 1);
    assert Jiffies(0, perJiffy) == 0;
    assert JiffiesAdvance(env, 0, perJiffy);
  }

  function Jiffies(t: nat, perJiffy: nat): nat {
    if perJiffy == 0 then 0 else t / perJiffy
  }

  lemma AddWraps(a: nat, b: nat)
    ensures (a % TWO64 + b) % TWO64 == (a + b) % TWO64
  {
    var q := a / TWO64;
    assert a + b == (a % TWO64 + b) + q * TWO64;
    AddQuotient(a % TWO64 + b, TWO64, q);
  }

  /** Differences of 64-bit TSC readings are true differences below 2^64. */
  lemma Elapsed(from: nat, to: nat)
    requires from <= to < from + TWO64
    ensures Minus64(to % TWO64, from % TWO64) == to - from
  {
    var q, r := from / TWO64, to / TWO64;
    assert from == q * TWO64 + from % TWO64 && to == r * TWO64 + to % TWO64;
  }
}
