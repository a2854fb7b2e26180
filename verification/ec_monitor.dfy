/**
 What one RT cycle of the EtherCAT backend does to its fault state (backends/ethercat/ec_backend.c:434-550):
 the periodic state watchdog, the run of consecutive bad cycles, the fault latch, the in_op flag and
 the deadline. The working counter and the bus state of each cycle are arbitrary inputs.
 */
module FaultMonitor {
  import opened Words

  const OPERATIONAL: int := 8

  /** Thresholds as the RT thread uses them, and the number of cycles between two state reads. */
  datatype Config = Config(
    expectedWkc: int,
    warnThreshold: u32,
    failThreshold: u32,
    warmupCycles: u32,
    checkPeriod: u32
  )

  /** What the bus answers in one cycle: the working counter, and the state a read would return. */
  datatype Observation = Observation(wkc: int, busState: int)

  datatype Monitor = Monitor(
    badCycles: u32,
    checkCounter: u32,
    ecState: int,
    faultLatched: bool,
    inOp: bool,
    cycleCount: nat
  )

  /** Both thresholds are nonzero: a configured zero is replaced by the default. */
  ghost predicate ConfigOk(c: Config) {
    c.warnThreshold > 0 && c.failThreshold > 0
  }

  /** The state ethercat_start leaves behind. */
  function Started(): Monitor {
    Monitor(0, 0, OPERATIONAL, false, true, 0)
  }

  function MonitorCycle(c: Config, m: Monitor, o: Observation): Monitor {
    var counter := Add32(m.checkCounter, 1);
    var check := counter >= c.checkPeriod;
    var ecState := if check then o.busState else m.ecState;
    var bad := ((c.expectedWkc > 0 && o.wkc < c.expectedWkc) || ecState != OPERATIONAL)
               && !(m.cycleCount < c.warmupCycles);
    var badCycles := if !bad then 0 else if m.badCycles < U32 - 1 then m.badCycles + 1 else m.badCycles;
    Monitor(badCycles,
            if check then 0 else counter,
            ecState,
            m.faultLatched || badCycles >= c.failThreshold,
            ecState == OPERATIONAL && badCycles < c.warnThreshold,
            m.cycleCount + 1)
  }

  ghost function MonitorRun(c: Config, obs: seq<Observation>): Monitor {
    if obs == [] then Started()
    else MonitorCycle(c, MonitorRun(c, obs[..|obs| - 1]), obs[|obs| - 1])
  }

  // ---------------------------------------------------------------- reference definitions

  /** A check period of zero, which truncation to 32 bits can produce, behaves like one. */
  ghost function CheckEvery(c: Config): nat {
    if c.checkPeriod == 0 then 1 else c.checkPeriod
  }

  /** The bus state is read in cycles P-1, 2P-1, 3P-1, ... */
  ghost predicate ReadsState(c: Config, n: nat) {
    (n + 1) % CheckEvery(c) == 0
  }

  /** The bus state the thread goes by in cycle `n`: the one of the latest read, OP before the first. */
  ghost function Observed(c: Config, obs: seq<Observation>, n: nat): int
    requires n < |obs|
  {
    if ReadsState(c, n) then obs[n].busState else if n == 0 then OPERATIONAL else Observed(c, obs, n - 1)
  }

  ghost predicate Bad(c: Config, obs: seq<Observation>, n: nat)
    requires n < |obs|
  {
    && n >= c.warmupCycles
    && ((c.expectedWkc > 0 && obs[n].wkc < c.expectedWkc) || Observed(c, obs, n) != OPERATIONAL)
  }

  /** The length of the run of bad cycles that ends just before cycle `n`. */
  ghost function BadRun(c: Config, obs: seq<Observation>, n: nat): (run: nat)
    requires n <= |obs|
    ensures run <= n
  {
    if n == 0 || !Bad(c, obs, n - 1) then 0 else BadRun(c, obs, n - 1) + 1
  }

  /** `k` consecutive bad cycles, the last of them before cycle `n`. */
  ghost predicate Window(c: Config, obs: seq<Observation>, k: nat, n: nat)
    requires n <= |obs|
  {
    k <= n && forall j :: n - k <= j < n ==> Bad(c, obs, j)
  }

  lemma {:induction false} WindowIsBadRun(c: Config, obs: seq<Observation>, k: nat, n: nat)
    requires n <= |obs|
    ensures Window(c, obs, k, n) <==> k <= BadRun(c, obs, n)
    decreases n
  {
    if k > 0 && n > 0 {
      WindowIsBadRun(c, obs, k - 1, n - 1);
      if Window(c, obs, k, n) {
        assert Bad(c, obs, n - 1);
      }
    }
  }

  lemma {:induction false} PrefixObserved(c: Config, obs: seq<Observation>, m: nat, n: nat)
    requires n < m <= |obs|
    ensures Observed(c, obs[..m], n) == Observed(c, obs, n)
  {
    if n > 0 {
      PrefixObserved(c, obs, m, n - 1);
    }
  }

  lemma {:induction false} PrefixBadRun(c: Config, obs: seq<Observation>, m: nat, n: nat)
    requires n <= m <= |obs|
    ensures BadRun(c, obs[..m], n) == BadRun(c, obs, n)
  {
    if n > 0 {
      PrefixObserved(c, obs, m, n - 1);
      PrefixBadRun(c, obs, m, n - 1);
    }
  }

  lemma RemainderStep(n: nat, d: nat)
    requires d > 0
    ensures (n + 1) % d == if n % d + 1 == d then 0 else n % d + 1
  {
    if n % d + 1 == d {
      assert n + 1 == (n / d) * d + d;
      ModUnique(n + 1, d, n / d + 1, 0);
    } else {
      ModUnique(n + 1, d, n / d, n % d + 1);
    }
  }

  /** The monitor's counters, told from the observations alone. */
  ghost predicate Agrees(c: Config, obs: seq<Observation>, m: Monitor) {
    var n := |obs|;
    && m.cycleCount == n
    && m.checkCounter == n % CheckEvery(c)
    && m.ecState == (if n == 0 then OPERATIONAL else Observed(c, obs, n - 1))
    && m.badCycles == Min(BadRun(c, obs, n), U32 - 1)
    && (m.faultLatched <==> exists e :: 0 <= e <= n && BadRun(c, obs, e) >= c.failThreshold)
    && (n > 0 ==> (m.inOp <==> Observed(c, obs, n - 1) == OPERATIONAL && BadRun(c, obs, n) < c.warnThreshold))
  }

  lemma {:induction false} RunAgrees(c: Config, obs: seq<Observation>)
    requires ConfigOk(c)
    ensures Agrees(c, obs, MonitorRun(c, obs))
    decreases |obs|
  {
    if obs == [] {
      assert MonitorRun(c, obs) == Started();
      assert 0 % CheckEvery(c) == 0;
    } else {
      var n := |obs| - 1;
      var before := obs[..n];
      RunAgrees(c, before);
      CycleAgrees(c, obs, MonitorRun(c, before));
    }
  }

  lemma CycleAgrees(c: Config, obs: seq<Observation>, m: Monitor)
    requires ConfigOk(c) && obs != [] && Agrees(c, obs[..|obs| - 1], m)
    ensures Agrees(c, obs, MonitorCycle(c, m, obs[|obs| - 1]))
  {
    hide Observed, ReadsState, CheckEvery;
    var n := |obs| - 1;
    var before, t := obs[..n], MonitorCycle(c, m, obs[n]);
    CounterAgrees(c, obs, m);
    forall e | 0 <= e <= n ensures BadRun(c, before, e) == BadRun(c, obs, e) {
      PrefixBadRun(c, obs, n, e);
    }
    LatchExtends(c, obs, n);
  }

  /** The read counter runs with the cycle number, and so the state seen is the observed one. */
  lemma CounterAgrees(c: Config, obs: seq<Observation>, m: Monitor)
    requires obs != [] && m.checkCounter == (|obs| - 1) % CheckEvery(c)
    requires m.ecState == if |obs| == 1 then OPERATIONAL else Observed(c, obs[..|obs| - 1], |obs| - 2)
    ensures var t := MonitorCycle(c, m, obs[|obs| - 1]);
      t.checkCounter == |obs| % CheckEvery(c) && t.ecState == Observed(c, obs, |obs| - 1)
  {
    var n := |obs| - 1;
    RemainderStep(n, CheckEvery(c));
    if n > 0 {
      PrefixObserved(c, obs, n, n - 1);
    }
  }

  lemma LatchExtends(c: Config, obs: seq<Observation>, n: nat)
    requires n < |obs|
    ensures (exists e :: 0 <= e <= n + 1 && BadRun(c, obs, e) >= c.failThreshold)
       <==> (exists e :: 0 <= e <= n && BadRun(c, obs, e) >= c.failThreshold) || BadRun(c, obs, n + 1) >= c.failThreshold
  {
  }

  // ---------------------------------------------------------------- main results

  /**
   Debounce: after any number of cycles the fault is latched exactly when they contain failThreshold
   consecutive bad cycles, all past the warm-up. The counter's saturation does not matter.
   */
  lemma LatchedIffEnoughConsecutiveBadCycles(c: Config, obs: seq<Observation>)
    requires ConfigOk(c)
    ensures MonitorRun(c, obs).faultLatched <==> exists n :: 0 <= n <= |obs| && Window(c, obs, c.failThreshold, n)
  {
    RunAgrees(c, obs);
    forall n | 0 <= n <= |obs|
      ensures Window(c, obs, c.failThreshold, n) <==> c.failThreshold <= BadRun(c, obs, n)
    {
      WindowIsBadRun(c, obs, c.failThreshold, n);
    }
  }

  /** in_op: the state last seen is OP and fewer than warnThreshold bad cycles trail. */
  lemma InOpIffFewBadCyclesTrail(c: Config, obs: seq<Observation>)
    requires ConfigOk(c) && obs != []
    ensures MonitorRun(c, obs).inOp <==>
        Observed(c, obs, |obs| - 1) == OPERATIONAL && !Window(c, obs, c.warnThreshold, |obs|)
  {
    RunAgrees(c, obs);
    WindowIsBadRun(c, obs, c.warnThreshold, |obs|);
  }

  /** The latch never falls during a run. */
  lemma LatchStays(c: Config, obs: seq<Observation>, more: seq<Observation>)
    requires MonitorRun(c, obs).faultLatched
    ensures MonitorRun(c, obs + more).faultLatched
    decreases |more|
  {
    if more == [] {
      assert obs + more == obs;
    } else {
      LatchStays(c, obs, more[..|more| - 1]);
      assert (obs + more)[..|obs + more| - 1] == obs + more[..|more| - 1];
    }
  }

  /** From cycle `n` on, no read of the bus state returns OP. */
  ghost predicate LeavesOpAt(obs: seq<Observation>, n: nat) {
    forall j :: n <= j < |obs| ==> obs[j].busState != OPERATIONAL
  }

  /** A state read happens within every CheckEvery consecutive cycles. */
  lemma NextRead(c: Config, n: nat) returns (r: nat)
    ensures n <= r < n + CheckEvery(c) && ReadsState(c, r)
  {
    var P := CheckEvery(c);
    r := n / P * P + P - 1;
    ModUnique(r + 1, P, n / P + 1, 0);
  }

  lemma {:induction false} ObservedStaysLost(c: Config, obs: seq<Observation>, n: nat, r: nat, j: nat)
    requires LeavesOpAt(obs, n) && n <= r <= j < |obs| && ReadsState(c, r)
    ensures Observed(c, obs, j) != OPERATIONAL
    decreases j
  {
    if j > r {
      ObservedStaysLost(c, obs, n, r, j - 1);
    }
  }

  /**
   Detection latency: if the bus leaves OP for good at cycle `n`, past the warm-up, then after
   CheckEvery + failThreshold - 1 cycles counted from `n` the fault is latched, whatever the working counters.
   */
  lemma FaultDetectedInTime(c: Config, obs: seq<Observation>, n: nat)
    requires ConfigOk(c) && n >= c.warmupCycles && LeavesOpAt(obs, n)
    requires |obs| >= n + CheckEvery(c) + c.failThreshold - 1
    ensures MonitorRun(c, obs).faultLatched
  {
    var r := NextRead(c, n);
    var e := r + c.failThreshold;
    forall j | r <= j < e ensures Bad(c, obs, j) {
      ObservedStaysLost(c, obs, n, r, j);
    }
    assert Window(c, obs, c.failThreshold, e);
    LatchedIffEnoughConsecutiveBadCycles(c, obs);
  }

  /** A bus that is healthy until cycle `n` and then leaves OP while every working counter stays good. */
  ghost function SilentLoss(c: Config, n: nat, total: nat): seq<Observation> {
    seq(total, i => Observation(if c.expectedWkc > 0 then c.expectedWkc else 0, if i < n then OPERATIONAL else 0))
  }

  lemma {:induction false} LossUnseenBeforeRead(c: Config, n: nat, total: nat, j: nat)
    requires j < total && j < n + CheckEvery(c) - 1 && n % CheckEvery(c) == 0
    ensures Observed(c, SilentLoss(c, n, total), j) == OPERATIONAL
  {
    if n <= j {
      var P := CheckEvery(c);
      ModUnique(j + 1, P, n / P, j + 1 - n);
    }
    if j > 0 {
      LossUnseenBeforeRead(c, n, total, j - 1);
    }
  }

  /** The bound is tight: one cycle earlier the fault can still be unlatched. */
  lemma LatencyIsTight(c: Config, n: nat)
    requires ConfigOk(c) && n % CheckEvery(c) == 0
    ensures var total := n + CheckEvery(c) + c.failThreshold - 2;
      LeavesOpAt(SilentLoss(c, n, total), n) && !MonitorRun(c, SilentLoss(c, n, total)).faultLatched
  {
    var total := n + CheckEvery(c) + c.failThreshold - 2;
    var obs := SilentLoss(c, n, total);
    LatchedIffEnoughConsecutiveBadCycles(c, obs);
    if MonitorRun(c, obs).faultLatched {
      var e :| 0 <= e <= |obs| && Window(c, obs, c.failThreshold, e);
      var first := e - c.failThreshold;
      assert Bad(c, obs, first);
      LossUnseenBeforeRead(c, n, total, first);
      assert false;
    }
  }

  // ---------------------------------------------------------------- deadline

  /** The deadline of the next cycle, after one that woke at `now`. */
  function NextDeadline(period: nat, deadline: nat, now: nat): nat {
    if now > deadline + period * 5 then now + period else deadline + period
  }

  /** After a cycle that woke at or after its deadline: now - 4 period <= deadline <= now + period. */
  lemma DeadlineTracksClock(period: nat, deadline: nat, now: nat)
    requires period > 0 && now >= deadline
    ensures now - 4 * period <= NextDeadline(period, deadline, now) <= now + period
    ensures deadline < NextDeadline(period, deadline, now)
  {
  }

  /** The deadlines of a run of cycles that woke at these times. */
  ghost function DeadlineAfter(period: nat, deadline: nat, wakes: seq<nat>): nat
    decreases |wakes|
  {
    if wakes == [] then deadline
    else DeadlineAfter(period, NextDeadline(period, deadline, wakes[0]), wakes[1..])
  }

  /** No cycle wakes more than five periods after its deadline, the first deadline being `deadline`, one per period. */
  ghost predicate WakesInTime(period: nat, deadline: nat, wakes: seq<nat>) {
    forall k :: 0 <= k < |wakes| ==> wakes[k] <= deadline + k * period + 5 * period
  }

  /** Late wake-ups within five periods leave no trace: the deadlines stay one period apart, counted from the first. */
  lemma {:induction false} DeadlinesStayOnTheGrid(period: nat, deadline: nat, wakes: seq<nat>)
    requires WakesInTime(period, deadline, wakes)
    ensures DeadlineAfter(period, deadline, wakes) == deadline + |wakes| * period
    decreases |wakes|
  {
    if wakes != [] {
      assert wakes[0] <= deadline + 0 * period + 5 * period;
      assert NextDeadline(period, deadline, wakes[0]) == deadline + period;
      hide NextDeadline;
      forall k | 0 <= k < |wakes[1..]| ensures wakes[1..][k] <= deadline + period + k * period + 5 * period {
        NextMultiple(k, period);
        assert wakes[k + 1] <= deadline + (k + 1) * period + 5 * period;
      }
      DeadlinesStayOnTheGrid(period, deadline + period, wakes[1..]);
      NextMultiple(|wakes| - 1, period);
    }
  }

  lemma NextMultiple(k: nat, period: nat)
    ensures (k + 1) * period == k * period + period
  {
  }

  // ---------------------------------------------------------------- the code

  /** `cfg != 0 ? cfg : default`, for every threshold. */
  function OrDefault(configured: u32, default: u32): u32 {
    if configured != 0 then configured else default
  }

  function WholeCycles(total: nat, periodNs: nat): nat
    requires periodNs > 0
  {
    total / periodNs
  }

  /** Milliseconds to cycles, at least one, then truncated to 32 bits. */
  function CheckPeriodCycles(periodMs: u32, periodNs: nat): u32
    requires periodNs > 0
  {
    var cycles := WholeCycles(periodMs * 1000000, periodNs);
    Index(if cycles == 0 then 1 else cycles)
  }

  /** The conversion without the division: the largest number of whole cycles within the period, but at least one. */
  lemma CheckPeriodIs(periodMs: u32, periodNs: nat, n: nat)
    requires periodNs > 0
    requires n * periodNs <= periodMs * 1000000 < n * periodNs + periodNs
    ensures CheckPeriodCycles(periodMs, periodNs) == (if n == 0 then 1 else n) % 0x1_0000_0000
  {
    QuotientUnique(periodMs * 1000000, periodNs, n);
  }

  /** The fields of EthercatDriver_t that the RT cycle keeps for itself. */
  class RtThread {
    const config: Config
    const periodNs: nat
    var badCycles: u32
    var checkCounter: u32
    var ecState: int
    var faultLatched: bool
    var inOp: bool
    var cycleCount: nat
    var deadline: nat

    ghost function State(): Monitor
      reads this
    {
      Monitor(badCycles, checkCounter, ecState, faultLatched, inOp, cycleCount)
    }

    /** ethercat_start, then the first lines of the thread. */
    constructor (expectedWkc: int, warn: u32, fail: u32, warmup: u32, checkMs: u32, periodNs: nat, now: nat)
      requires periodNs > 0
      ensures ConfigOk(config) && this.periodNs == periodNs
      ensures config == Config(expectedWkc, OrDefault(warn, 2), OrDefault(fail, 10), OrDefault(warmup, 20),
                               CheckPeriodCycles(OrDefault(checkMs, 200), periodNs))
      ensures config.warnThreshold == (if warn != 0 then warn else 2) && config.failThreshold == (if fail != 0 then fail else 10)
      ensures config.warmupCycles == (if warmup != 0 then warmup else 20)
      ensures config.checkPeriod == CheckPeriodCycles(if checkMs != 0 then checkMs else 200, periodNs)
      ensures State() == Started() && deadline == now + periodNs
    {
      config := Config(expectedWkc, OrDefault(warn, 2), OrDefault(fail, 10), OrDefault(warmup, 20),
                       CheckPeriodCycles(OrDefault(checkMs, 200), periodNs));
      this.periodNs := periodNs;
      badCycles, checkCounter, ecState, faultLatched, inOp, cycleCount := 0, 0, OPERATIONAL, false, true, 0;
      deadline := now + periodNs;
    }

    /** The fault part of one turn of the RT loop. `trip` says that this cycle's counter reached the limit. */
    method Cycle(wkc: int, busState: int) returns (trip: bool)
      modifies this`badCycles, this`checkCounter, this`ecState, this`faultLatched, this`inOp, this`cycleCount
      ensures State() == MonitorCycle(config, old(State()), Observation(wkc, busState))
      ensures trip == (badCycles >= config.failThreshold)
    {
      checkCounter := Add32(checkCounter, 1);
      if checkCounter >= config.checkPeriod {
        checkCounter := 0;
        ecState := busState;
      }
      var bad := (config.expectedWkc > 0 && wkc < config.expectedWkc) || ecState != OPERATIONAL;
      if cycleCount < config.warmupCycles {
        bad := false;
      }
      if bad {
        if badCycles < U32 - 1 {
          badCycles := badCycles + 1;
        }
      } else {
        badCycles := 0;
      }
      trip := false;
      if badCycles >= config.failThreshold {
        faultLatched := true;
        trip := true;
      }
      inOp := ecState == OPERATIONAL && badCycles < config.warnThreshold;
      cycleCount := cycleCount + 1;
    }

    method Reschedule(now: nat)
      modifies this`deadline
      ensures deadline == NextDeadline(periodNs, old(deadline), now)
      ensures deadline == if now <= old(deadline) + 5 * periodNs then old(deadline) + periodNs else now + periodNs
    {
      if now > deadline + periodNs * 5 {
        deadline := now + periodNs;
      } else {
        deadline := deadline + periodNs;
      }
    }
  }
}
