/**
 When the PLC scheduler releases a task, and when it starts its next cycle
 (core/plc/plc_scheduler.c:169-266). Clock readings are in milliseconds; `last_run_ms` is 32 bits
 wide while the clock is 64 bits wide, so every claim about a release says that the clock
 stays below 2^32.
 */
module Release {
  import opened Words

  datatype Health = HealthOk | HealthWarn | HealthFault

  datatype Policy = AlwaysRun | SkipOnFault | OnlyWhenOk

  /** PlcTask_t; `fn == 0` stands for the null function pointer. */
  datatype PlcTask = PlcTask(
    name: nat,
    fn: nat,
    ctx: nat,
    period: u32,
    phase: u32,
    lastRun: u32,
    policy: Policy
  )

  /** `start_ms + phase_ms`, the earliest release. */
  function TaskStart(task: PlcTask, start: nat): nat {
    start + task.phase
  }

  /** The value the thread gives `last_run_ms` when it starts: one period before the first release. */
  function InitialLastRun(task: PlcTask, start: nat): u32 {
    var phaseStart := TaskStart(task, start);
    if task.period == 0 then Index(phaseStart)
    else if phaseStart >= task.period then Index(phaseStart - task.period)
    else 0
  }

  predicate Due(task: PlcTask, start: nat, now: nat) {
    now >= TaskStart(task, start) && now - task.lastRun >= task.period
  }

  /** Only FAULT gates a task; ONLY_WHEN_OK is treated like SKIP_ON_FAULT. */
  predicate Allowed(policy: Policy, health: Health) {
    health != HealthFault || policy == AlwaysRun
  }

  /** How many whole periods of length `d` fit into `x`. */
  function Floor(x: nat, d: nat): nat
    requires d > 0
  {
    x / d
  }

  lemma FloorBounds(x: nat, d: nat)
    requires d > 0
    ensures Floor(x, d) * d <= x < Floor(x, d) * d + d
  {
  }

  // ---------------------------------------------------------------- the catch-up loop

  /** Where whole periods added to `last` stop being a period behind `now`. */
  ghost function CaughtUp(last: nat, now: nat, period: nat): nat
    requires period > 0 && last <= now
  {
    last + Floor(now - last, period) * period
  }

  /** `last_run_ms` after `n` turns of the loop, in 32-bit arithmetic. */
  ghost function CatchUpTurns(last: u32, period: u32, n: nat): u32 {
    if n == 0 then last else Add32(CatchUpTurns(last, period, n - 1), period)
  }

  /** The loop guard, with the 64-bit subtraction of the code. */
  ghost predicate Behind(last: u32, now: nat, period: u32) {
    (now - last) % 0x1_0000_0000_0000_0000 >= period
  }

  /** The loop stops after exactly `n` turns. */
  ghost predicate StopsAfter(last: u32, now: nat, period: u32, n: nat) {
    && !Behind(CatchUpTurns(last, period, n), now, period)
    && forall k :: 0 <= k < n ==> Behind(CatchUpTurns(last, period, k), now, period)
  }

  lemma {:induction false} TurnsWithoutWrap(last: u32, period: u32, n: nat)
    requires last + n * period < U32
    ensures CatchUpTurns(last, period, n) == last + n * period
  {
    if n > 0 {
      var done := (n - 1) * period;
      assert n * period == done + period;
      TurnsWithoutWrap(last, period, n - 1);
      assert Add32(last + done, period) == last + done + period;
    }
  }

  lemma FloorIs(x: nat, d: nat, k: nat)
    requires d > 0 && k * d <= x < k * d + d
    ensures Floor(x, d) == k
  {
    QuotientUnique(x, d, k);
  }

  lemma {:induction false} ProductMonotone(k: nat, n: nat, d: nat)
    requires k <= n
    ensures k * d <= n * d
    decreases n - k
  {
    if k < n {
      ProductMonotone(k + 1, n, d);
      assert (k + 1) * d == k * d + d;
    }
  }

  /**
   The loop stops on the caught-up value exactly when that value still fits 32 bits, and then
   after floor(Floor(now - last, period)) turns.
   */
  lemma CatchUpStopsIffItFits(last: u32, now: nat, period: u32)
    requires period > 0 && last <= now < 0x1_0000_0000_0000_0000
    ensures (exists n :: StopsAfter(last, now, period, n) && CatchUpTurns(last, period, n) == CaughtUp(last, now, period))
       <==> CaughtUp(last, now, period) < U32
  {
    hide Behind, Floor;
    if CaughtUp(last, now, period) < U32 {
      StopsWhenItFits(last, now, period);
    }
  }

  lemma StopsWhenItFits(last: u32, now: nat, period: u32)
    requires period > 0 && last <= now < 0x1_0000_0000_0000_0000 && CaughtUp(last, now, period) < U32
    ensures StopsAfter(last, now, period, Floor(now - last, period))
    ensures CatchUpTurns(last, period, Floor(now - last, period)) == CaughtUp(last, now, period)
  {
    var n := Floor(now - last, period);
    FloorBounds(now - last, period);
    hide Floor, CatchUpTurns;
    TurnsWithoutWrap(last, period, n);
    assert 0 <= now - CaughtUp(last, now, period) < period;
    forall k | 0 <= k < n ensures Behind(CatchUpTurns(last, period, k), now, period) {
      BehindUntilThen(last, now, period, n, k);
    }
  }

  lemma BehindUntilThen(last: u32, now: nat, period: u32, n: nat, k: nat)
    requires last + n * period < U32 && last + n * period <= now < 0x1_0000_0000_0000_0000 && k < n
    ensures Behind(CatchUpTurns(last, period, k), now, period)
  {
    ProductMonotone(k + 1, n, period);
    assert (k + 1) * period == k * period + period;
    TurnsWithoutWrap(last, period, k);
  }

  /** Once the clock is a full period past 2^32 the loop never stops. */
  lemma CatchUpNeverStops(last: u32, now: nat, period: u32, n: nat)
    requires U32 + period - 1 <= now < 0x1_0000_0000_0000_0000
    ensures !StopsAfter(last, now, period, n)
  {
    assert Behind(CatchUpTurns(last, period, n), now, period);
  }

  // ---------------------------------------------------------------- one task over many ticks

  datatype Tick = Tick(now: nat, health: Health)

  /** What a tick does to one task, and whether the task was released and was actually run. */
  datatype Outcome = Outcome(task: PlcTask, released: bool, ran: bool)

  /** The task's last run never lies beyond both the clock and the task's first release. */
  predicate InTime(task: PlcTask, start: nat, now: nat) {
    task.lastRun <= now || task.lastRun <= TaskStart(task, start)
  }

  ghost function TickTask(task: PlcTask, start: nat, tick: Tick): (o: Outcome)
    requires task.period > 0 && InTime(task, start, tick.now) && tick.now < U32
    ensures InTime(o.task, start, tick.now)
  {
    if Due(task, start, tick.now) then
      Outcome(task.(lastRun := CaughtUp(task.lastRun, tick.now, task.period)), true, Allowed(task.policy, tick.health))
    else
      Outcome(task, false, false)
  }

  /**
   One task at one tick, told without the definitions: it is released from start + phase on when a period has passed; then
   last_run_ms moves on by whole periods to less than one before now; and it runs unless the level is FAULT and its
   policy another than ALWAYS_RUN.
   */
  lemma TickMeans(task: PlcTask, start: nat, tick: Tick)
    requires task.period > 0 && InTime(task, start, tick.now) && tick.now < U32
    ensures var o := TickTask(task, start, tick);
      && (o.released <==> tick.now >= start + task.phase && tick.now - task.lastRun >= task.period)
      && (o.ran <==> o.released && (tick.health != HealthFault || task.policy == AlwaysRun))
      && o.task == task.(lastRun := o.task.lastRun)
      && (!o.released ==> o.task.lastRun == task.lastRun)
      && (o.released ==> o.task.lastRun <= tick.now < o.task.lastRun + task.period)
      && (o.released ==> (o.task.lastRun - task.lastRun) % task.period == 0)
  {
    if tick.now >= start + task.phase && tick.now - task.lastRun >= task.period {
      var n := Floor(tick.now - task.lastRun, task.period);
      FloorBounds(tick.now - task.lastRun, task.period);
      ModUnique(n * task.period, task.period, n, 0);
      hide Floor;
    }
  }

  /** Clock readings do not go back, and stay below 2^32. */
  ghost predicate ClockOk(ticks: seq<Tick>) {
    && (forall i :: 0 <= i < |ticks| ==> ticks[i].now < U32)
    && (forall i, j :: 0 <= i < j < |ticks| ==> ticks[i].now <= ticks[j].now)
  }

  datatype History = History(task: PlcTask, released: seq<bool>, ran: seq<bool>)

  /** A task whose first release lies ahead, or that was added at run time with last_run_ms 0. */
  ghost predicate Fresh(task: PlcTask, start: nat) {
    task.period > 0 && task.lastRun <= TaskStart(task, start)
  }

  ghost function RunTicks(task: PlcTask, start: nat, ticks: seq<Tick>): (h: History)
    requires Fresh(task, start) && ClockOk(ticks)
    ensures |h.released| == |h.ran| == |ticks|
    ensures h.task == task.(lastRun := h.task.lastRun)
    ensures ticks != [] ==> InTime(h.task, start, ticks[|ticks| - 1].now)
    ensures ticks == [] ==> h.task == task
    decreases |ticks|
  {
    if ticks == [] then History(task, [], [])
    else
      var n := |ticks| - 1;
      var h := RunTicks(task, start, ticks[..n]);
      var o := TickTask(h.task, start, ticks[n]);
      History(o.task, h.released + [o.released], h.ran + [o.ran])
  }

  /** The number of whole periods the clock has moved past the task's starting point. */
  ghost function Periods(task: PlcTask, start: nat, now: nat): nat
    requires Fresh(task, start)
  {
    if now >= TaskStart(task, start) then Floor(now - task.lastRun, task.period) else 0
  }

  ghost function PeriodsAt(task: PlcTask, start: nat, ticks: seq<Tick>, i: int): nat
    requires Fresh(task, start) && -1 <= i < |ticks|
  {
    if i < 0 then 0 else Periods(task, start, ticks[i].now)
  }

  lemma FloorMonotone(a: nat, b: nat, d: nat)
    requires d > 0 && a <= b
    ensures Floor(a, d) <= Floor(b, d)
  {
    MultipleGap(b / d - a / d, d);
    assert (b / d - a / d) * d == b / d * d - a / d * d;
  }

  /** Advancing from a point `k` periods in: the quotient seen from there is the remaining part of the total. */
  lemma FloorFrom(origin: nat, now: nat, d: nat, k: nat)
    requires d > 0 && origin + k * d <= now
    ensures Floor(now - origin, d) == k + Floor(now - (origin + k * d), d)
    ensures CaughtUp(origin + k * d, now, d) == origin + Floor(now - origin, d) * d
  {
    var x := now - (origin + k * d);
    var q := Floor(x, d);
    FloorBounds(x, d);
    hide Floor;
    assert (k + q) * d == k * d + q * d;
    FloorIs(now - origin, d, k + q);
  }

  /** Period counts of a run and of the run without its last tick. */
  lemma PeriodsOf(task: PlcTask, start: nat, ticks: seq<Tick>)
    requires Fresh(task, start)
    ensures PeriodsAt(task, start, ticks, -1) == 0
    ensures forall i :: 0 <= i < |ticks| ==> PeriodsAt(task, start, ticks, i) == Periods(task, start, ticks[i].now)
    ensures ticks != [] ==>
      forall i :: -1 <= i < |ticks| - 1 ==>
        PeriodsAt(task, start, ticks[..|ticks| - 1], i) == PeriodsAt(task, start, ticks, i)
  {
    hide Periods;
  }

  /** The time `k` periods after the task's starting point. */
  ghost function After(task: PlcTask, k: nat): nat {
    task.lastRun + k * task.period
  }

  lemma TickAdvancesTo(task: PlcTask, start: nat, current: PlcTask, k: nat, tick: Tick, previous: nat)
    requires Fresh(task, start) && tick.now < U32 && previous <= tick.now
    requires current == task.(lastRun := current.lastRun) && InTime(current, start, tick.now)
    requires current.lastRun == After(task, k)
    requires k == 0 || k == Periods(task, start, previous)
    ensures var o := TickTask(current, start, tick);
      && o.task.lastRun == After(task, Periods(task, start, tick.now))
      && (o.released <==> Periods(task, start, tick.now) != k)
      && (o.ran <==> o.released && Allowed(task.policy, tick.health))
  {
    hide TickTask, Periods, Allowed;
    TickAdvances(task, start, current, k, tick, previous);
  }

  ghost predicate Follows(task: PlcTask, start: nat, ticks: seq<Tick>, h: History)
    requires Fresh(task, start) && |h.released| == |h.ran| == |ticks|
  {
    && h.task.lastRun == After(task, PeriodsAt(task, start, ticks, |ticks| - 1))
    && (forall i :: 0 <= i < |ticks| ==>
          (h.released[i] <==> PeriodsAt(task, start, ticks, i) != PeriodsAt(task, start, ticks, i - 1)))
    && (forall i :: 0 <= i < |ticks| ==> (h.ran[i] <==> h.released[i] && Allowed(task.policy, ticks[i].health)))
  }

  /** One tick more. */
  lemma FollowsOn(task: PlcTask, start: nat, ticks: seq<Tick>, h: History, u: History, o: Outcome)
    requires Fresh(task, start) && ticks != [] && |h.released| == |h.ran| == |ticks| - 1
    requires Follows(task, start, ticks[..|ticks| - 1], h)
    requires u == History(o.task, h.released + [o.released], h.ran + [o.ran])
    requires var n := |ticks| - 1;
      && o.task.lastRun == After(task, PeriodsAt(task, start, ticks, n))
      && (o.released <==> PeriodsAt(task, start, ticks, n) != PeriodsAt(task, start, ticks, n - 1))
      && (o.ran <==> o.released && Allowed(task.policy, ticks[n].health))
    ensures Follows(task, start, ticks, u)
  {
    hide After, PeriodsAt, Allowed;
    PeriodsOf(task, start, ticks);
  }

  lemma {:induction false} RunFollows(task: PlcTask, start: nat, ticks: seq<Tick>)
    requires Fresh(task, start) && ClockOk(ticks)
    ensures Follows(task, start, ticks, RunTicks(task, start, ticks))
    decreases |ticks|
  {
    hide After, Periods, PeriodsAt, TickTask, Allowed;
    PeriodsOf(task, start, ticks);
    if ticks == [] {
      NoPeriodsYet(task);
    } else {
      var n := |ticks| - 1;
      var before := ticks[..n];
      RunFollows(task, start, before);
      var h := RunTicks(task, start, before);
      TickAdvancesTo(task, start, h.task, PeriodsAt(task, start, ticks, n - 1), ticks[n],
                     if n == 0 then 0 else ticks[n - 1].now);
      FollowsOn(task, start, ticks, h, RunTicks(task, start, ticks), TickTask(h.task, start, ticks[n]));
    }
  }

  lemma NoPeriodsYet(task: PlcTask)
    ensures After(task, 0) == task.lastRun
  {
  }

  /**
   Over any run of ticks, `last_run_ms` is the starting point plus a whole number of periods, that
   number is floor((now - starting point) / period), and the task is released at exactly the ticks
   where it moved. Health decides only whether the released task runs: a release skipped in FAULT is used up.
   */
  lemma ReleasesFollowTheClock(task: PlcTask, start: nat, ticks: seq<Tick>)
    requires Fresh(task, start) && ClockOk(ticks)
    ensures var h := RunTicks(task, start, ticks);
      && h.task.lastRun == task.lastRun + PeriodsAt(task, start, ticks, |ticks| - 1) * task.period
      && (forall i :: 0 <= i < |ticks| ==>
            (h.released[i] <==> PeriodsAt(task, start, ticks, i) != PeriodsAt(task, start, ticks, i - 1)))
      && (forall i :: 0 <= i < |ticks| ==>
            (h.ran[i] <==> h.released[i] && (ticks[i].health != HealthFault || task.policy == AlwaysRun)))
  {
    hide RunTicks, PeriodsAt;
    RunFollows(task, start, ticks);
  }

  lemma TickAdvances(task: PlcTask, start: nat, current: PlcTask, k: nat, tick: Tick, previous: nat)
    requires Fresh(task, start) && tick.now < U32 && previous <= tick.now
    requires current == task.(lastRun := current.lastRun) && InTime(current, start, tick.now)
    requires current.lastRun == task.lastRun + k * task.period
    requires k == 0 || k == Periods(task, start, previous)
    ensures var o := TickTask(current, start, tick);
      && o.task.lastRun == task.lastRun + Periods(task, start, tick.now) * task.period
      && (o.released <==> Periods(task, start, tick.now) != k)
      && (o.ran <==> o.released && Allowed(task.policy, tick.health))
  {
    var now, P := tick.now, task.period;
    if now >= TaskStart(task, start) {
      if k != 0 {
        FloorBounds(previous - task.lastRun, P);
      }
      FloorFrom(task.lastRun, now, P, k);
      hide Floor;
      if now - current.lastRun < P {
        FloorIs(now - current.lastRun, P, 0);
      } else {
        FloorMonotone(P, now - current.lastRun, P);
        FloorIs(P, P, 1);
      }
    }
  }

  /** At most one release per period: two releases are at least one period count apart. */
  lemma OneReleasePerPeriod(task: PlcTask, start: nat, ticks: seq<Tick>, i: nat, j: nat)
    requires Fresh(task, start) && ClockOk(ticks) && i < j < |ticks|
    requires RunTicks(task, start, ticks).released[j]
    ensures PeriodsAt(task, start, ticks, i) < PeriodsAt(task, start, ticks, j)
  {
    ReleasesFollowTheClock(task, start, ticks);
    PeriodsMonotone(task, start, ticks, i, j - 1);
    PeriodsMonotone(task, start, ticks, j - 1, j);
  }

  lemma PeriodsMonotone(task: PlcTask, start: nat, ticks: seq<Tick>, i: nat, j: nat)
    requires Fresh(task, start) && ClockOk(ticks) && i <= j < |ticks|
    ensures PeriodsAt(task, start, ticks, i) <= PeriodsAt(task, start, ticks, j)
  {
    if i < j && ticks[i].now >= TaskStart(task, start) {
      FloorMonotone(ticks[i].now - task.lastRun, ticks[j].now - task.lastRun, task.period);
    }
  }

  /** The task as the thread arms it when it starts. */
  ghost function Armed(task: PlcTask, start: nat): PlcTask {
    task.(lastRun := InitialLastRun(task, start))
  }

  lemma NoDriftFrom(task: PlcTask, start: nat, ticks: seq<Tick>)
    requires task.period > 0 && TaskStart(task, start) >= task.period
    requires ClockOk(ticks) && ticks != [] && ticks[|ticks| - 1].now >= TaskStart(task, start)
    ensures Fresh(Armed(task, start), start)
    ensures var S, now := TaskStart(task, start), ticks[|ticks| - 1].now;
      RunTicks(Armed(task, start), start, ticks).task.lastRun == S + Floor(now - S, task.period) * task.period
  {
    var S, now, P := TaskStart(task, start), ticks[|ticks| - 1].now, task.period;
    ArmedOnePeriodEarly(task, start, S);
    var armed := Armed(task, start);
    ReleasesFollowTheClock(armed, start, ticks);
    PeriodsFromStart(armed, start, now);
    var last, k := RunTicks(armed, start, ticks).task.lastRun, PeriodsAt(armed, start, ticks, |ticks| - 1);
    var whole := Floor(now - S, P);
    assert last == armed.lastRun + k * armed.period && armed.period == P;
    OnePeriodMore(k, whole, P);
    hide *;
  }

  /**
   The no-drift law of a task registered before the thread starts, with S = start + phase >= period:
   after a tick at `now >= S`, last_run_ms = S + period * floor((now - S) / period).
   */
  lemma NoDrift(task: PlcTask, start: nat, ticks: seq<Tick>)
    requires task.period > 0 && start + task.phase >= task.period
    requires ClockOk(ticks) && ticks != [] && ticks[|ticks| - 1].now >= start + task.phase
    ensures Fresh(Armed(task, start), start)
    ensures var S, now := start + task.phase, ticks[|ticks| - 1].now;
      RunTicks(Armed(task, start), start, ticks).task.lastRun == S + Floor(now - S, task.period) * task.period
  {
    hide RunTicks, Floor, Fresh, Armed, ClockOk;
    NoDriftFrom(task, start, ticks);
  }

  lemma OnePeriodMore(k: nat, whole: nat, d: nat)
    requires k == 1 + whole
    ensures k * d == d + whole * d
  {
  }

  /** The first tick at or after S releases such a task. */
  lemma FirstTickReleases(task: PlcTask, start: nat, ticks: seq<Tick>, i: nat)
    requires task.period > 0 && start + task.phase >= task.period
    requires ClockOk(ticks) && i < |ticks| && ticks[i].now >= start + task.phase
    requires i == 0 || ticks[i - 1].now < start + task.phase
    ensures Fresh(Armed(task, start), start)
    ensures RunTicks(Armed(task, start), start, ticks).released[i]
  {
    ArmedOnePeriodEarly(task, start, start + task.phase);
    var armed := Armed(task, start);
    ReleasesFollowTheClock(armed, start, ticks);
    PeriodsFromStart(armed, start, ticks[i].now);
    hide RunTicks, Floor, InitialLastRun, CaughtUp;
    assert PeriodsAt(armed, start, ticks, i) > 0 && PeriodsAt(armed, start, ticks, i - 1) == 0;
  }

  lemma ArmedOnePeriodEarly(task: PlcTask, start: nat, S: nat)
    requires S == TaskStart(task, start) && 0 < task.period <= S < U32
    ensures InitialLastRun(task, start) == S - task.period
  {
  }

  lemma PeriodsFromStart(armed: PlcTask, start: nat, now: nat)
    requires armed.period > 0 && armed.lastRun == TaskStart(armed, start) - armed.period
    requires now >= TaskStart(armed, start)
    ensures Periods(armed, start, now) == 1 + Floor(now - TaskStart(armed, start), armed.period)
  {
    FloorFrom(armed.lastRun, now, armed.period, 1);
  }

  /** Where the thread arms a task: one period before start + phase, or at 0, in 32 bits. */
  lemma ArmedAt(task: PlcTask, start: nat)
    ensures Armed(task, start) == task.(lastRun := Armed(task, start).lastRun)
    ensures Armed(task, start).lastRun == Max(start + task.phase - task.period, 0) % 0x1_0000_0000
  {
  }

  function Max(a: int, b: int): int {
    if a > b then a else b
  }

  /** FAULT ticks use releases up: what a task's clock does is independent of the health levels. */
  lemma {:induction false} HealthDoesNotMoveTheClock(task: PlcTask, start: nat, a: seq<Tick>, b: seq<Tick>)
    requires Fresh(task, start) && ClockOk(a) && ClockOk(b)
    requires |a| == |b| && forall i :: 0 <= i < |a| ==> a[i].now == b[i].now
    ensures RunTicks(task, start, a).task == RunTicks(task, start, b).task
    ensures RunTicks(task, start, a).released == RunTicks(task, start, b).released
    decreases |a|
  {
    if a != [] {
      HealthDoesNotMoveTheClock(task, start, a[..|a| - 1], b[..|b| - 1]);
    }
  }

  // ---------------------------------------------------------------- pacing

  /** `5 * s->base_cycle_ms` is computed in 32 bits. */
  function OverrunLimit(base: u32): u32 {
    Index(5 * base)
  }

  /** The next tick, after a cycle that ran at clock reading `now`. */
  function NextTick(base: u32, nextTick: nat, now: nat): nat {
    var next := nextTick + base;
    if now > next && now - next > OverrunLimit(base) then now + base else next
  }

  lemma LimitIsFiveCyclesUnlessItWraps(base: u32)
    ensures OverrunLimit(base) <= 5 * base
    ensures OverrunLimit(base) == 5 * base <==> base <= 858993459
  {
  }

  /** The thread's loop over clock readings: a reading before the next tick only sleeps. */
  ghost function Pace(base: u32, nextTick: nat, readings: seq<nat>): nat
    decreases |readings|
  {
    if readings == [] then nextTick
    else if readings[0] < nextTick then Pace(base, nextTick, readings[1..])
    else Pace(base, NextTick(base, nextTick, readings[0]), readings[1..])
  }

  /** After any cycle: now - 5 base <= next tick <= now + base, and the next tick has moved forward. */
  lemma CycleKeepsPace(base: u32, nextTick: nat, now: nat)
    requires base > 0 && now >= nextTick
    ensures now - 5 * base <= NextTick(base, nextTick, now) <= now + base
    ensures nextTick < NextTick(base, nextTick, now)
  {
    LimitIsFiveCyclesUnlessItWraps(base);
  }

  ghost function CyclesAt(base: u32, nextTick: nat, now: nat, n: nat): nat {
    Pace(base, nextTick, seq(n, _ => now))
  }

  lemma {:induction false} FrozenClock(base: u32, nextTick: nat, now: nat, n: nat)
    requires base > 0 && now <= nextTick + n * base
    ensures now < CyclesAt(base, nextTick, now, n + 1)
    decreases n
  {
    var next := if now < nextTick then nextTick else NextTick(base, nextTick, now);
    assert seq(n + 1, _ => now)[1..] == seq(n, _ => now);
    assert CyclesAt(base, nextTick, now, n + 1) == CyclesAt(base, next, now, n);
    if n > 0 {
      assert n * base == (n - 1) * base + base;
      FrozenClock(base, next, now, n - 1);
    }
  }

  /** If the clock then stands still, at most six further cycles run before the thread sleeps. */
  lemma SixCyclesCatchUp(base: u32, nextTick: nat, now: nat)
    requires base > 0 && now >= nextTick
    ensures now < CyclesAt(base, NextTick(base, nextTick, now), now, 6)
  {
    CycleKeepsPace(base, nextTick, now);
    FrozenClock(base, NextTick(base, nextTick, now), now, 5);
  }

  /** Over any clock readings, every cycle that runs is within the bounds. */
  lemma {:induction false} EveryRunKeepsPace(base: u32, nextTick: nat, readings: seq<nat>, last: nat)
    requires base > 0 && last >= Pace(base, nextTick, readings)
    ensures var next := Pace(base, nextTick, readings + [last]);
      last - 5 * base <= next <= last + base && Pace(base, nextTick, readings) < next
    decreases |readings|
  {
    if readings == [] {
      CycleKeepsPace(base, nextTick, last);
      assert Pace(base, nextTick, [last]) == Pace(base, NextTick(base, nextTick, last), []);
    } else {
      assert (readings + [last])[1..] == readings[1..] + [last];
      var next := if readings[0] < nextTick then nextTick else NextTick(base, nextTick, readings[0]);
      EveryRunKeepsPace(base, next, readings[1..], last);
    }
  }

  /**
   The next tick told without its definition: it moves on by one base cycle from where it was, not from the clock, until
   the clock is more than five cycles (in 32 bits) past it; then it starts again one cycle after the clock.
   */
  lemma NextTickIs(base: u32, nextTick: nat, now: nat)
    ensures now <= nextTick + base + 5 * base % 0x1_0000_0000 ==> NextTick(base, nextTick, now) == nextTick + base
    ensures now > nextTick + base + 5 * base % 0x1_0000_0000 ==> NextTick(base, nextTick, now) == now + base
  {
  }

  /** How many of the readings reach their tick, the first tick being `t0` and each further one a base cycle later. */
  ghost function Reached(base: u32, t0: nat, readings: seq<nat>): nat
    decreases |readings|
  {
    if readings == [] then 0
    else if readings[0] < t0 then Reached(base, t0, readings[1..])
    else 1 + Reached(base, t0 + base, readings[1..])
  }

  /** No reading is more than five cycles past the tick that follows the one it reaches. */
  ghost predicate NeverFarBehind(base: u32, t0: nat, readings: seq<nat>)
    decreases |readings|
  {
    readings == []
    || (if readings[0] < t0 then NeverFarBehind(base, t0, readings[1..])
        else readings[0] <= t0 + base + 5 * base % 0x1_0000_0000 && NeverFarBehind(base, t0 + base, readings[1..]))
  }

  /** Lateness does not add up: over any such run the tick is the first one plus a base cycle per cycle run. */
  lemma {:induction false} CyclesStayOnTheGrid(base: u32, t0: nat, readings: seq<nat>)
    requires NeverFarBehind(base, t0, readings)
    ensures Pace(base, t0, readings) == t0 + Reached(base, t0, readings) * base
    decreases |readings|
  {
    hide NextTick;
    if readings != [] {
      if readings[0] < t0 {
        CyclesStayOnTheGrid(base, t0, readings[1..]);
      } else {
        NextTickIs(base, t0, readings[0]);
        CyclesStayOnTheGrid(base, t0 + base, readings[1..]);
        OnePeriodMore(1 + Reached(base, t0 + base, readings[1..]), Reached(base, t0 + base, readings[1..]), base);
      }
    }
  }
}
