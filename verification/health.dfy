/**
 From fault latch to task gating: runtime_get_health_level (core/runtime/runtime.c:165-211), called once per PLC cycle
 (main.c:77-79), and the gate in the task loop (core/plc/plc_scheduler.c:219-248), while the RT threads and the control
 thread change the backends' flags between any two steps.
 */
module HealthGate {
  import opened FaultMonitor
  import opened Release

  /**
   One slot of the backends array: no driver, a driver without get_status, or a driver. `monitor.faultLatched` is the
   shared latch; `inOp` is the shared flag, stored later in the RT cycle than the latch.
   */
  datatype Backend = NoDriver | NoStatus | Driver(config: Config, monitor: Monitor, inOp: bool)

  /** runtime_get_health_level loads in_op and then the latch of each driver in turn. */
  datatype Plc =
    | AtBegin
    | AtInOp(i: nat, level: Health)
    | AtLatch(i: nat, level: Health, inOp: bool)
    | AtStore(level: Health)
    | InTasks

  /** One task body executed: in which PLC cycle, at which level, under which policy. */
  datatype Exec = Exec(cycle: nat, level: Health, policy: Policy)

  datatype State = State(backends: seq<Backend>, plc: Plc, health: Health, cycle: nat, log: seq<Exec>)

  datatype Action =
    | PlcStep
    | TaskDue(policy: Policy)
    | EndCycle
    | RtJudge(b: nat, o: Observation)
    | RtShow(b: nat)
    | StopShow(b: nat)
    | StartShow(b: nat)
    | StartClear(b: nat)

  ghost predicate Initial(s: State) {
    && s.plc.AtBegin? && s.cycle == 0 && s.log == [] && s.health == HealthOk
    && forall b :: 0 <= b < |s.backends| && s.backends[b].Driver? ==>
        s.backends[b].monitor == Started() && ConfigOk(s.backends[b].config)
  }

  ghost predicate Latched(s: State, b: nat) {
    b < |s.backends| && s.backends[b].Driver? && s.backends[b].monitor.faultLatched
  }

  ghost function ScanStep(s: State): Plc {
    match s.plc
    case AtBegin => AtInOp(0, HealthOk)
    case AtInOp(i, level) =>
      if i >= |s.backends| then AtStore(level)
      else if s.backends[i].Driver? then AtLatch(i, level, s.backends[i].inOp)
      else AtInOp(i + 1, level)
    case AtLatch(i, level, inOp) =>
      if Latched(s, i) then AtStore(HealthFault)
      else AtInOp(i + 1, if inOp then level else HealthWarn)
    case AtStore(_) => InTasks
    case InTasks => InTasks
  }

  ghost function BackendStep(d: Backend, a: Action): Backend
    requires d.Driver?
  {
    match a
    case RtJudge(_, o) => d.(monitor := MonitorCycle(d.config, d.monitor, o))
    case RtShow(_) => d.(inOp := d.monitor.inOp)
    case StopShow(_) => d.(inOp := false)
    case StartShow(_) => d.(inOp := true)
    case StartClear(_) => d.(monitor := Started())
    case _ => d
  }

  ghost function Step(s: State, a: Action): State {
    match a
    case PlcStep =>
      s.(plc := ScanStep(s), health := if s.plc.AtStore? then s.plc.level else s.health)
    case TaskDue(policy) =>
      if s.plc.InTasks? && Allowed(policy, s.health) then s.(log := s.log + [Exec(s.cycle, s.health, policy)]) else s
    case EndCycle =>
      if s.plc.InTasks? then s.(plc := AtBegin, cycle := s.cycle + 1) else s
    case _ =>
      if a.b < |s.backends| && s.backends[a.b].Driver? then s.(backends := s.backends[a.b := BackendStep(s.backends[a.b], a)])
      else s
  }

  ghost function Run(s: State, acts: seq<Action>): State {
    if acts == [] then s else Step(Run(s, acts[..|acts| - 1]), acts[|acts| - 1])
  }

  lemma {:induction false} RunConcat(s: State, a: seq<Action>, b: seq<Action>)
    ensures Run(s, a + b) == Run(Run(s, a), b)
  {
    if b == [] {
      assert a + b == a;
    } else {
      var n := |b| - 1;
      RunConcat(s, a, b[..n]);
      assert (a + b)[..|a + b| - 1] == a + b[..n];
    }
  }

  // ---------------------------------------------------------------- one level per cycle

  ghost predicate LogOk(s: State) {
    && (forall i :: 0 <= i < |s.log| ==> Allowed(s.log[i].policy, s.log[i].level))
    && (forall i :: 0 <= i < |s.log| ==> s.log[i].cycle <= s.cycle)
    && (forall i :: 0 <= i < |s.log| && s.log[i].cycle == s.cycle ==> s.plc.InTasks? && s.log[i].level == s.health)
    && (forall i, j :: 0 <= i < j < |s.log| && s.log[i].cycle == s.log[j].cycle ==> s.log[i].level == s.log[j].level)
  }

  lemma StepKeepsLogOk(s: State, a: Action)
    requires LogOk(s)
    ensures LogOk(Step(s, a))
  {
  }

  lemma {:induction false} RunKeepsLogOk(s: State, acts: seq<Action>)
    requires LogOk(s)
    ensures LogOk(Run(s, acts))
  {
    if acts != [] {
      RunKeepsLogOk(s, acts[..|acts| - 1]);
      StepKeepsLogOk(Run(s, acts[..|acts| - 1]), acts[|acts| - 1]);
    }
  }

  /** All tasks of one PLC cycle see one and the same health level, however the flags move meanwhile. */
  lemma OneLevelPerCycle(s: State, acts: seq<Action>, i: nat, j: nat)
    requires Initial(s) && i < |Run(s, acts).log| && j < |Run(s, acts).log|
    requires Run(s, acts).log[i].cycle == Run(s, acts).log[j].cycle
    ensures Run(s, acts).log[i].level == Run(s, acts).log[j].level
  {
    RunKeepsLogOk(s, acts);
  }

  // ---------------------------------------------------------------- gating

  ghost predicate NoRestart(acts: seq<Action>, b: nat) {
    forall i :: 0 <= i < |acts| ==> acts[i] != StartClear(b)
  }

  /** The scan of this cycle has not gone past backend `b`, or it has ended in FAULT. */
  ghost predicate WillSee(s: State, b: nat) {
    match s.plc
    case AtBegin => true
    case AtInOp(i, _) => i <= b
    case AtLatch(i, _, _) => i <= b
    case AtStore(level) => level == HealthFault
    case InTasks => s.health == HealthFault
  }

  /** Backend `b` is latched and, from cycle `c` on, only ALWAYS_RUN tasks have run or can run. */
  ghost predicate Gated(s: State, b: nat, c: nat) {
    && Latched(s, b)
    && (s.cycle >= c ==> WillSee(s, b))
    && forall i :: 0 <= i < |s.log| && s.log[i].cycle >= c ==> s.log[i].policy == AlwaysRun
  }

  lemma StepKeepsGated(s: State, a: Action, b: nat, c: nat)
    requires Gated(s, b, c) && a != StartClear(b)
    ensures Gated(Step(s, a), b, c)
  {
  }

  lemma {:induction false} RunKeepsGated(s: State, acts: seq<Action>, b: nat, c: nat)
    requires Gated(s, b, c) && NoRestart(acts, b)
    ensures Gated(Run(s, acts), b, c)
  {
    if acts != [] {
      RunKeepsGated(s, acts[..|acts| - 1], b, c);
      StepKeepsGated(Run(s, acts[..|acts| - 1]), acts[|acts| - 1], b, c);
    }
  }

  /**
   A latch that this cycle's health scan can still see, or has seen: in this cycle and every later one, until that
   backend is started again, only ALWAYS_RUN tasks execute.
   */
  lemma SeenFaultGatesTasks(s: State, before: seq<Action>, after: seq<Action>, b: nat, i: nat)
    requires Initial(s) && NoRestart(after, b)
    requires var t := Run(s, before); Latched(t, b) && !t.plc.InTasks? && WillSee(t, b)
    requires i < |Run(s, before + after).log| && Run(s, before + after).log[i].cycle >= Run(s, before).cycle
    ensures Run(s, before + after).log[i].policy == AlwaysRun
  {
    RunKeepsLogOk(s, before);
    RunConcat(s, before, after);
    RunKeepsGated(Run(s, before), after, b, Run(s, before).cycle);
  }

  /** A latch set at any moment gates every cycle that begins later. */
  lemma LatchGatesLaterCycles(s: State, before: seq<Action>, after: seq<Action>, b: nat, i: nat)
    requires Initial(s) && NoRestart(after, b) && Latched(Run(s, before), b)
    requires i < |Run(s, before + after).log| && Run(s, before + after).log[i].cycle > Run(s, before).cycle
    ensures Run(s, before + after).log[i].policy == AlwaysRun
  {
    RunKeepsLogOk(s, before);
    RunConcat(s, before, after);
    RunKeepsGated(Run(s, before), after, b, Run(s, before).cycle + 1);
  }

  // ---------------------------------------------------------------- from the bus to the tasks

  /** What backend `b` has observed, RT cycle by RT cycle. */
  ghost function Observations(acts: seq<Action>, b: nat): seq<Observation> {
    if acts == [] then []
    else
      var last := acts[|acts| - 1];
      var earlier := Observations(acts[..|acts| - 1], b);
      if last.RtJudge? && last.b == b then earlier + [last.o] else earlier
  }

  lemma {:induction false} MonitorFollowsObservations(s: State, acts: seq<Action>, b: nat)
    requires Initial(s) && b < |s.backends| && s.backends[b].Driver? && NoRestart(acts, b)
    ensures var t := Run(s, acts);
      && |t.backends| == |s.backends| && t.backends[b].Driver? && t.backends[b].config == s.backends[b].config
      && t.backends[b].monitor == MonitorRun(s.backends[b].config, Observations(acts, b))
  {
    if acts != [] {
      var front, last := acts[..|acts| - 1], acts[|acts| - 1];
      MonitorFollowsObservations(s, front, b);
      var obs := Observations(front, b);
      if last.RtJudge? && last.b == b {
        assert (obs + [last.o])[..|obs|] == obs;
      }
      hide MonitorCycle;
    }
  }

  /**
   End to end: when the bus of backend `b` leaves OP for good at its RT cycle `n`, past the warm-up, and
   CheckEvery + failThreshold - 1 RT cycles counted from `n` have been judged, then in every PLC cycle that begins
   afterwards only ALWAYS_RUN tasks execute.
   */
  lemma LossOfOpGatesTasks(s: State, before: seq<Action>, after: seq<Action>, b: nat, n: nat, i: nat)
    requires Initial(s) && b < |s.backends| && s.backends[b].Driver? && NoRestart(before, b) && NoRestart(after, b)
    requires n >= s.backends[b].config.warmupCycles && LeavesOpAt(Observations(before, b), n)
    requires |Observations(before, b)| >= n + CheckEvery(s.backends[b].config) + s.backends[b].config.failThreshold - 1
    requires i < |Run(s, before + after).log| && Run(s, before + after).log[i].cycle > Run(s, before).cycle
    ensures Run(s, before + after).log[i].policy == AlwaysRun
  {
    MonitorFollowsObservations(s, before, b);
    FaultDetectedInTime(s.backends[b].config, Observations(before, b), n);
    LatchGatesLaterCycles(s, before, after, b, i);
  }

  // ---------------------------------------------------------------- the level itself

  /** The level of flags that hold still: what the scan computes when nothing interferes. */
  ghost function LevelOf(backends: seq<Backend>): Health {
    if exists b :: 0 <= b < |backends| && backends[b].Driver? && backends[b].monitor.faultLatched then HealthFault
    else if exists b :: 0 <= b < |backends| && backends[b].Driver? && !backends[b].inOp then HealthWarn
    else HealthOk
  }

  ghost function LevelOfRest(backends: seq<Backend>, i: nat, level: Health): Health {
    var rest := if i <= |backends| then LevelOf(backends[i..]) else HealthOk;
    if rest == HealthOk then level else rest
  }

  lemma SkipFirst(backends: seq<Backend>, i: nat, level: Health)
    requires i < |backends| && level != HealthFault
    ensures var d := backends[i];
      LevelOfRest(backends, i, level)
      == if d.Driver? && d.monitor.faultLatched then HealthFault
         else LevelOfRest(backends, i + 1, if d.Driver? && !d.inOp then HealthWarn else level)
  {
    var rest, next := backends[i..], backends[i + 1..];
    assert rest == [backends[i]] + next;
    forall b | 0 <= b < |next| ensures rest[b + 1] == next[b] {
    }
    assert rest[0] == backends[i];
  }

  lemma NothingLeft(backends: seq<Backend>, level: Health)
    ensures LevelOfRest(backends, |backends|, level) == level
  {
  }

  /** A scan that runs undisturbed from AtInOp(i, level) stores the level of the remaining flags. */
  lemma {:induction false} QuietScan(s: State, i: nat, level: Health) returns (n: nat)
    requires i <= |s.backends| && s.plc == AtInOp(i, level) && level != HealthFault
    ensures Run(s, seq(n, _ => PlcStep)) == s.(plc := AtStore(LevelOfRest(s.backends, i, level)))
    decreases |s.backends| - i
  {
    hide LevelOfRest;
    if i == |s.backends| {
      n := 1;
      RunFront(s, 1);
      NothingLeft(s.backends, level);
    } else {
      SkipFirst(s.backends, i, level);
      var t := Step(s, PlcStep);
      var used := 1;
      if s.backends[i].Driver? {
        t := Step(t, PlcStep);
        used := 2;
      }
      var m := 0;
      if t.plc.AtInOp? {
        m := QuietScan(t, i + 1, t.plc.level);
      }
      n := used + m;
      RunFront(s, n);
      if used == 2 {
        RunFront(Step(s, PlcStep), n - 1);
      }
    }
  }

  lemma RunFront(s: State, n: nat)
    requires n > 0
    ensures Run(s, seq(n, _ => PlcStep)) == Run(Step(s, PlcStep), seq(n - 1, _ => PlcStep))
  {
    var all, rest := seq(n, _ => PlcStep), seq(n - 1, _ => PlcStep);
    assert all == [PlcStep] + rest;
    assert [PlcStep][..0] == [] && Run(s, [PlcStep]) == Step(s, PlcStep);
    RunConcat(s, [PlcStep], rest);
  }

  lemma LevelMeans(backends: seq<Backend>)
    ensures LevelOf(backends) == HealthFault
       <==> exists b :: 0 <= b < |backends| && backends[b].Driver? && backends[b].monitor.faultLatched
    ensures LevelOf(backends) == HealthWarn <==>
      && (forall b :: 0 <= b < |backends| && backends[b].Driver? ==> !backends[b].monitor.faultLatched)
      && (exists b :: 0 <= b < |backends| && backends[b].Driver? && !backends[b].inOp)
  {
  }

  /** Undisturbed, one cycle publishes FAULT, WARN or OK exactly as the flags demand. */
  lemma QuietCyclePublishesLevel(s: State) returns (n: nat)
    requires s.plc.AtBegin?
    ensures Run(s, seq(n, _ => PlcStep)) == s.(plc := InTasks, health := LevelOf(s.backends))
    ensures var t := Run(s, seq(n, _ => PlcStep));
      && (t.health == HealthFault
          <==> exists b :: 0 <= b < |s.backends| && s.backends[b].Driver? && s.backends[b].monitor.faultLatched)
      && (t.health == HealthWarn <==>
          && (forall b :: 0 <= b < |s.backends| && s.backends[b].Driver? ==> !s.backends[b].monitor.faultLatched)
          && (exists b :: 0 <= b < |s.backends| && s.backends[b].Driver? && !s.backends[b].inOp))
  {
    var t := Step(s, PlcStep);
    var m := QuietScan(t, 0, HealthOk);
    assert s.backends[0..] == s.backends;
    var k := seq(m, _ => PlcStep);
    n := m + 2;
    RunFront(s, n);
    assert seq(m + 1, _ => PlcStep) == k + [PlcStep];
    assert (k + [PlcStep])[..m] == k;
    LevelMeans(s.backends);
    hide LevelOf;
  }

  // ---------------------------------------------------------------- ONLY_WHEN_OK

  /** One undisturbed cycle in which a task of this policy is due. */
  ghost function QuietCycleWithTask(n: nat, policy: Policy): seq<Action> {
    seq(n, _ => PlcStep) + [TaskDue(policy)]
  }

  lemma FirstStep(s: State, a: Action)
    ensures Run(s, [a]) == Step(s, a)
  {
    hide Step;
    assert [a][..0] == [];
  }

  /** Policy by policy: ALWAYS_RUN runs at every level, the other two at every level but FAULT. */
  lemma DueTaskRuns(s: State, policy: Policy)
    requires s.plc.InTasks?
    ensures policy == AlwaysRun || s.health != HealthFault ==>
        Step(s, TaskDue(policy)) == s.(log := s.log + [Exec(s.cycle, s.health, policy)])
    ensures policy == SkipOnFault && s.health == HealthFault ==> Step(s, TaskDue(policy)) == s
    ensures policy == OnlyWhenOk && s.health == HealthFault ==> Step(s, TaskDue(policy)) == s
  {
  }

  lemma {:induction false} TaskAfterQuietCycle(s: State, n: nat, policy: Policy)
    requires Run(s, seq(n, _ => PlcStep)) == s.(plc := InTasks, health := LevelOf(s.backends))
    ensures var level := LevelOf(s.backends);
      Run(s, QuietCycleWithTask(n, policy)).log
      == if level == HealthFault && policy != AlwaysRun then s.log else s.log + [Exec(s.cycle, level, policy)]
  {
    var scan := seq(n, _ => PlcStep);
    var u := Run(s, scan);
    hide LevelOf, Run, Step;
    RunConcat(s, scan, [TaskDue(policy)]);
    FirstStep(u, TaskDue(policy));
    DueTaskRuns(u, policy);
  }

  /**
   From the flags to the task: in a cycle that nothing disturbs, a due task runs iff its policy is ALWAYS_RUN or no
   backend has latched a fault, WARN included, and the level it runs at is that of the flags.
   */
  lemma QuietCycleRunsTask(s: State, policy: Policy) returns (n: nat)
    requires s.plc.AtBegin?
    ensures var u, latched := Run(s, QuietCycleWithTask(n, policy)), exists b: nat :: Latched(s, b);
      u.log == if latched && policy != AlwaysRun then s.log else s.log + [Exec(s.cycle, LevelOf(s.backends), policy)]
  {
    n := QuietCyclePublishesLevel(s);
    TaskAfterQuietCycle(s, n, policy);
    hide Run;
    if b: nat :| Latched(s, b) {
      assert s.backends[b].Driver? && s.backends[b].monitor.faultLatched;
    }
    if LevelOf(s.backends) == HealthFault {
      var b :| 0 <= b < |s.backends| && s.backends[b].Driver? && s.backends[b].monitor.faultLatched;
      assert Latched(s, b);
    }
  }

  /** In a cycle that nothing disturbs an ONLY_WHEN_OK task runs at OK only, exactly when the level is not WARN. */
  lemma OnlyWhenOkObeysIffNotWarn(s: State) returns (n: nat)
    requires s.plc.AtBegin?
    ensures (Run(s, QuietCycleWithTask(n, OnlyWhenOk)).log != s.log ==> LevelOf(s.backends) == HealthOk)
       <==> LevelOf(s.backends) != HealthWarn
  {
    n := QuietCyclePublishesLevel(s);
    TaskAfterQuietCycle(s, n, OnlyWhenOk);
    hide Run, LevelOf;
  }

  /** What the policy's name promises. */
  ghost predicate OnlyAtOk(log: seq<Exec>) {
    forall i :: 0 <= i < |log| && log[i].policy == OnlyWhenOk ==> log[i].level == HealthOk
  }

  ghost predicate NoDrivers(backends: seq<Backend>) {
    forall b :: 0 <= b < |backends| ==> !backends[b].Driver?
  }

  /** Without a driver nothing ever raises the level. */
  ghost predicate AlwaysOk(s: State) {
    && NoDrivers(s.backends) && OnlyAtOk(s.log) && s.health == HealthOk
    && match s.plc
       case AtInOp(_, level) => level == HealthOk
       case AtLatch(_, _, _) => false
       case AtStore(level) => level == HealthOk
       case _ => true
  }

  lemma {:induction false} RunKeepsAlwaysOk(s: State, acts: seq<Action>)
    requires AlwaysOk(s)
    ensures AlwaysOk(Run(s, acts))
  {
    if acts != [] {
      RunKeepsAlwaysOk(s, acts[..|acts| - 1]);
    }
  }

  /** A backend that has left OP, none latched: the level is WARN. */
  lemma WarnLevel(s: State, b: nat)
    requires Initial(s) && b < |s.backends| && s.backends[b].Driver?
    ensures Step(s, StopShow(b)).plc.AtBegin? && Step(s, StopShow(b)).log == []
    ensures LevelOf(Step(s, StopShow(b)).backends) == HealthWarn
  {
    var u := Step(s, StopShow(b)).backends;
    assert u[b].Driver? && !u[b].inOp;
    forall c | 0 <= c < |u| && u[c].Driver? ensures !u[c].monitor.faultLatched {
      assert s.backends[c].Driver?;
    }
  }

  /** Stopping backend `b` takes its in_op flag away; the next cycle runs the task at WARN. */
  lemma DriverBreaksOnlyAtOk(s: State, b: nat) returns (acts: seq<Action>)
    requires Initial(s) && b < |s.backends| && s.backends[b].Driver?
    ensures !OnlyAtOk(Run(s, acts).log)
  {
    WarnLevel(s, b);
    var t := Step(s, StopShow(b));
    hide Step, Run, LevelOf, Initial;
    var n := QuietCyclePublishesLevel(t);
    TaskAfterQuietCycle(t, n, OnlyWhenOk);
    acts := [StopShow(b)] + QuietCycleWithTask(n, OnlyWhenOk);
    RunConcat(s, [StopShow(b)], QuietCycleWithTask(n, OnlyWhenOk));
    FirstStep(s, StopShow(b));
    var log := Run(s, acts).log;
    assert log == [Exec(t.cycle, HealthWarn, OnlyWhenOk)];
    assert log[0].policy == OnlyWhenOk && log[0].level == HealthWarn;
  }

  /** The exact condition in runs: ONLY_WHEN_OK tasks run at OK only, in all runs, iff there is no driver with a status. */
  lemma OnlyWhenOkHoldsIffNoDrivers(s: State)
    requires Initial(s)
    ensures (forall acts :: OnlyAtOk(Run(s, acts).log)) <==> NoDrivers(s.backends)
  {
    if NoDrivers(s.backends) {
      forall acts ensures OnlyAtOk(Run(s, acts).log) {
        RunKeepsAlwaysOk(s, acts);
      }
    } else {
      var b: nat :| b < |s.backends| && s.backends[b].Driver?;
      var acts := DriverBreaksOnlyAtOk(s, b);
    }
  }

  /** runtime_get_health_level over the drivers themselves; null stands for a missing driver. */
  method GetHealthLevel(backends: seq<RtThread?>) returns (level: Health)
    ensures level == HealthFault <==> exists i :: 0 <= i < |backends| && backends[i] != null && backends[i].faultLatched
    ensures level != HealthFault ==>
        (level == HealthWarn <==> exists i :: 0 <= i < |backends| && backends[i] != null && !backends[i].inOp)
  {
    level := HealthOk;
    var i := 0;
    while i < |backends|
      invariant 0 <= i <= |backends| && level != HealthFault
      invariant forall k :: 0 <= k < i && backends[k] != null ==> !backends[k].faultLatched
      invariant level == HealthWarn <==> exists k :: 0 <= k < i && backends[k] != null && !backends[k].inOp
    {
      if backends[i] != null {
        var inOp := backends[i].inOp;
        if backends[i].faultLatched {
          return HealthFault;
        }
        if !inOp {
          level := HealthWarn;
        }
      }
      i := i + 1;
    }
  }
}
