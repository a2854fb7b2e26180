/**
 From the bus to the frames (backends/ethercat/ec_backend.c:434-612): the fault monitor of one driver gives the verdicts
 that module SafeOutputThreads takes as inputs, start resets it together with the latch.
 */
module FaultToOutputs {
  import S = SafeOutputs
  import opened FaultMonitor
  import opened SafeOutputThreads

  /** The driver, its monitor, and the observations judged since start last cleared the latch. */
  datatype Bus = Bus(config: Config, many: Many, monitor: Monitor, seen: seq<Observation>)

  /** RT thread `t` judges its cycle by what the bus answered, or any other move of any thread. */
  datatype Event = Judge(t: nat, o: Observation) | Plain(move: Move)

  ghost predicate Judging(m: Many, t: nat) {
    t < |m.rts| && m.rts[t].RtJudging?
  }

  predicate IsVerdict(move: Move) {
    move.Thread? && move.a.RtJudge?
  }

  ghost predicate Clears(m: Many, move: Move) {
    move == Other(S.StartClearLatch) && m.shared.control.CStartSend?
  }

  /** The verdict of the cycle, given the monitor after it. */
  ghost function VerdictMove(c: Config, t: nat, monitor: Monitor): Move {
    Thread(t, S.RtJudge(monitor.badCycles >= c.failThreshold))
  }

  ghost function BusStep(b: Bus, e: Event): (u: Bus)
    requires Fine(b.many)
    ensures Fine(u.many) && u.config == b.config
  {
    match e
    case Judge(t, o) =>
      if Judging(b.many, t) then
        var monitor := MonitorCycle(b.config, b.monitor, o);
        Bus(b.config, MoveStep(b.many, VerdictMove(b.config, t, monitor)), monitor, b.seen + [o])
      else b
    case Plain(move) =>
      if IsVerdict(move) then b
      else if Clears(b.many, move) then Bus(b.config, MoveStep(b.many, move), Started(), [])
      else b.(many := MoveStep(b.many, move))
  }

  ghost function BusRun(b: Bus, events: seq<Event>): (u: Bus)
    requires Fine(b.many)
    ensures Fine(u.many) && u.config == b.config
    decreases |events|
  {
    if events == [] then b else BusRun(BusStep(b, events[0]), events[1..])
  }

  /** The moves of SafeOutputThreads that an event amounts to. */
  ghost function MovesOf(b: Bus, e: Event): seq<Move> {
    match e
    case Judge(t, o) =>
      if Judging(b.many, t) then [VerdictMove(b.config, t, MonitorCycle(b.config, b.monitor, o))] else []
    case Plain(move) => if IsVerdict(move) then [] else [move]
  }

  ghost function Moves(b: Bus, events: seq<Event>): seq<Move>
    requires Fine(b.many)
    decreases |events|
  {
    if events == [] then [] else MovesOf(b, events[0]) + Moves(BusStep(b, events[0]), events[1..])
  }

  ghost predicate InitialBus(b: Bus) {
    InitialMany(b.many) && !b.many.shared.faultLatched && ConfigOk(b.config) && b.monitor == Started() && b.seen == []
  }

  /** Start does not clear the latch along these events. */
  ghost predicate KeepsLatch(events: seq<Event>) {
    forall i :: 0 <= i < |events| ==> events[i] != Plain(Other(S.StartClearLatch))
  }

  // ---------------------------------------------------------------- the composed machine refines both parts

  lemma EventIsMoves(b: Bus, e: Event)
    requires Fine(b.many)
    ensures BusStep(b, e).many == MoveRun(b.many, MovesOf(b, e))
  {
    hide MoveStep, MonitorCycle;
    var moves := MovesOf(b, e);
    if moves != [] {
      assert moves[1..] == [];
      assert MoveRun(b.many, moves) == MoveRun(MoveStep(b.many, moves[0]), []);
    }
  }

  lemma {:induction false} RunIsMoves(b: Bus, events: seq<Event>)
    requires Fine(b.many)
    ensures BusRun(b, events).many == MoveRun(b.many, Moves(b, events))
    decreases |events|
  {
    if events != [] {
      EventIsMoves(b, events[0]);
      hide BusStep, MovesOf, MoveRun;
      var t := BusStep(b, events[0]);
      RunIsMoves(t, events[1..]);
      MoveRunConcat(b.many, MovesOf(b, events[0]), Moves(t, events[1..]));
    } else {
      assert Moves(b, events) == [];
    }
  }

  /** The latch moves only with a verdict and with start. */
  lemma LatchMoves(m: Many, move: Move)
    requires Fine(m)
    ensures var n := MoveStep(m, move);
      n.shared.faultLatched ==
        if Clears(m, move) then false
        else m.shared.faultLatched || (move.Thread? && Judging(m, move.t) && move.a.RtJudge? && move.a.trip)
  {
    match move
    case Thread(t, a) =>
      if t < |m.rts| && OfThread(a) {
        StepLatch(With(m, m.rts[t]), a);
      }
    case Other(a) =>
      if !OfThread(a) && !a.CallStart? {
        StepLatch(With(m, Latest(m)), a);
      }
    hide S.Step;
  }

  lemma StepLatch(s: S.State, a: S.Action)
    requires S.Shape(s)
    ensures S.Step(s, a).faultLatched ==
      if a.StartClearLatch? && s.control.CStartSend? then false
      else s.faultLatched || (a.RtJudge? && s.rt.RtJudging? && a.trip)
  {
    RtLatch(s);
    ControlLatch(s);
    hide S.RtStep, S.ControlStep, S.Shape;
  }

  lemma RtLatch(s: S.State)
    requires S.Shape(s)
    ensures S.RtStep(s).faultLatched == s.faultLatched
  {
    hide S.Shape;
  }

  lemma ControlLatch(s: S.State)
    requires S.Shape(s)
    ensures S.ControlStep(s).faultLatched == s.faultLatched
  {
    hide S.Shape;
  }

  /** The monitor is the one that the observations since the last clearing make, and the shared latch is its latch. */
  ghost predicate Follows(b: Bus) {
    Fine(b.many) && b.monitor == MonitorRun(b.config, b.seen) && b.monitor.faultLatched == b.many.shared.faultLatched
  }

  lemma EventKeepsFollows(b: Bus, e: Event)
    requires Follows(b)
    ensures Follows(BusStep(b, e))
  {
    match e
    case Judge(t, o) =>
      if Judging(b.many, t) {
        assert (b.seen + [o])[..|b.seen|] == b.seen;
        LatchMoves(b.many, VerdictMove(b.config, t, MonitorCycle(b.config, b.monitor, o)));
      }
    case Plain(move) =>
      LatchMoves(b.many, move);
    hide MoveStep, Fine;
  }

  lemma {:induction false} RunFollows(b: Bus, events: seq<Event>)
    requires Follows(b)
    ensures Follows(BusRun(b, events))
    decreases |events|
  {
    assert Fine(b.many);
    if events != [] {
      EventKeepsFollows(b, events[0]);
      hide BusStep, Follows;
      RunFollows(BusStep(b, events[0]), events[1..]);
    }
  }

  lemma {:induction false} NothingCleared(b: Bus, events: seq<Event>)
    requires Fine(b.many) && KeepsLatch(events)
    ensures NoClear(Moves(b, events))
    decreases |events|
  {
    if events != [] {
      hide BusStep;
      assert forall i :: 0 <= i < |events[1..]| ==> events[1..][i] == events[i + 1];
      NothingCleared(BusStep(b, events[0]), events[1..]);
      assert NoClear(MovesOf(b, events[0]));
    }
  }

  // ---------------------------------------------------------------- main results

  /**
   The shared latch: it is set exactly when the observations judged since start last cleared it contain failThreshold
   consecutive bad cycles past the warm-up. One RT thread at a time, since the cycle count is the thread's own.
   */
  lemma SharedLatchIffEnoughBadCycles(b: Bus, events: seq<Event>)
    requires InitialBus(b) && StartsBeside(b.many, Moves(b, events), 0)
    ensures var u := BusRun(b, events);
      u.many.shared.faultLatched
      <==> exists n :: 0 <= n <= |u.seen| && Window(u.config, u.seen, u.config.failThreshold, n)
  {
    assert MonitorRun(b.config, []) == Started();
    RunFollows(b, events);
    LatchedIffEnoughConsecutiveBadCycles(b.config, BusRun(b, events).seen);
    hide Window;
  }

  /**
   End to end: when the bus leaves OP for good at RT cycle `n` after a start, past the warm-up, and CheckEvery +
   failThreshold - 1 cycles counted from `n` have been judged, then every process-data frame sent afterwards carries zeros
   until start clears the latch, whatever the PLC stages and the other threads do. Start must so far not have been called
   beside a live RT thread.
   */
  lemma LossOfOpZeroesFrames(b: Bus, before: seq<Event>, after: seq<Event>, n: nat)
    requires InitialBus(b) && StartsBeside(b.many, Moves(b, before), 0) && KeepsLatch(after)
    requires var u := BusRun(b, before);
      && n >= b.config.warmupCycles && LeavesOpAt(u.seen, n)
      && |u.seen| >= n + CheckEvery(b.config) + b.config.failThreshold - 1
    ensures var u, v := BusRun(b, before), BusRun(BusRun(b, before), after);
      u.many.shared.frames <= v.many.shared.frames && ZeroFrom(v.many.shared.frames, |u.many.shared.frames|)
  {
    var u := BusRun(b, before);
    assert MonitorRun(b.config, []) == Started();
    RunFollows(b, before);
    FaultDetectedInTime(b.config, u.seen, n);
    RunIsMoves(b, before);
    RunIsMoves(u, after);
    NothingCleared(u, after);
    hide MoveRun, Moves, BusRun;
    StartsAloneKeepOutputsSafe(b.many, Moves(b, before), Moves(u, after));
  }
}
