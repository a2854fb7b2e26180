/**
 The pending queue at and past 2^32 reservations (core/plc/plc_scheduler.c:290-355). Three things are exact here: accepted
 tasks all arrive iff there are fewer than 2^32 of them; the order of arrival holds up to 2^32 and no further; and the
 2^32-th task is never handed over in any run.
 */
module PendingWrap {
  import opened PendingQueue
  import opened PendingSolo
  import opened Schedules
  import opened Words

  // ---------------------------------------------------------------- never 2^32 hand-overs

  /** The read index counts hand-overs, and the drainer copies only below the write index it has loaded. */
  ghost predicate HandCount(s: State) {
    && Shape(s)
    && s.pendingRead == |s.handed| + (if s.drainer.DHanding? then 1 else 0)
    && match s.drainer
       case DIdle => true
       case DLoadedRead(r) => r == s.pendingRead
       case DLoop(r, _) => r == s.pendingRead
       case DCopying(r, w, _) => r == s.pendingRead && r < w
       case DCleared(r, w, _) => r == s.pendingRead && r < w
       case DHanding(r, _, _) => r == s.pendingRead
  }

  lemma NextBelow(r: u32, w: u32)
    requires r < w
    ensures Add32(r, 1) == r + 1
  {
  }

  lemma StepKeepsHandCount(s: State, a: Action)
    requires HandCount(s)
    ensures HandCount(Step(s, a))
  {
    if s.drainer.DCleared? {
      NextBelow(s.drainer.read, s.drainer.write);
    }
    hide Cell, Add32, Sub32;
  }

  lemma {:induction false} RunKeepsHandCount(s: State, acts: seq<Action>)
    requires HandCount(s)
    ensures HandCount(Run(s, acts))
    decreases |acts|
  {
    assert Shape(s);
    hide Step, HandCount;
    if acts != [] {
      StepKeepsHandCount(s, acts[0]);
      RunKeepsHandCount(Step(s, acts[0]), acts[1..]);
    }
  }

  /** However many tasks are queued and however threads interleave, fewer than 2^32 are ever handed over. */
  lemma FewerThanWrapHanded(s: State, acts: seq<Action>)
    requires Initial(s)
    ensures |Run(s, acts).handed| < U32
  {
    RunKeepsHandCount(s, acts);
  }

  /** So once 2^32 tasks have been accepted, one of them is outstanding for ever. */
  lemma WrapStallsTheDrain(s: State, acts: seq<Action>, more: seq<Action>)
    requires Initial(s) && |Run(s, acts).reserved| >= U32
    ensures |Run(Run(s, acts), more).handed| < |Run(Run(s, acts), more).reserved|
  {
    RunConcat(s, acts, more);
    FewerThanWrapHanded(s, acts + more);
  }

  /**
   The exact condition of delivery: when every call has returned, what has been accepted can still all be handed over, by
   some continuation without further tasks, iff fewer than 2^32 tasks have been accepted since the start.
   */
  lemma AcceptedTasksArriveIffBelowWrap(s: State, acts: seq<Action>)
    requires Initial(s) && Quiet(Run(s, acts))
    ensures (exists more :: Run(Run(s, acts), more).handed == Run(Run(s, acts), more).reserved == Run(s, acts).reserved)
       <==> |Run(s, acts).reserved| < U32
  {
    var t := Run(s, acts);
    if |t.reserved| < U32 {
      InitialInvariant(s);
      RunKeepsInvariant(s, acts);
      DrainPassHandsOverEverything(t);
      var more := DrainPass(|t.reserved| - t.pendingRead);
      assert Run(t, more).handed == Run(t, more).reserved == t.reserved;
    } else {
      forall more ensures Run(t, more).handed != Run(t, more).reserved {
        WrapStallsTheDrain(s, acts, more);
      }
    }
  }

  /** The drainer between or at the start of passes, with the write index at or below the read index. */
  ghost predicate Stalled(s: State) {
    && Shape(s) && s.pendingWrite <= s.pendingRead
    && match s.drainer
       case DIdle => true
       case DLoadedRead(r) => r == s.pendingRead
       case DLoop(r, w) => r == s.pendingRead && w <= r
       case _ => false
  }

  ghost predicate DrainerOnly(acts: seq<Action>) {
    forall i :: 0 <= i < |acts| ==>
      match acts[i]
      case DrainCall => true
      case DrainLoadWrite => true
      case DrainTest => true
      case DrainCopyWord => true
      case DrainClear => true
      case DrainAdvance => true
      case DrainHand => true
      case _ => false
  }

  /** The comparison without wrap: from there on drain calls alone move nothing. */
  lemma {:induction false} StalledForGood(s: State, acts: seq<Action>)
    requires Stalled(s) && DrainerOnly(acts)
    ensures var t := Run(s, acts);
      t.handed == s.handed && t.reserved == s.reserved && t.pendingRead == s.pendingRead && t.producers == s.producers
    decreases |acts|
  {
    if acts != [] {
      StalledForGood(Step(s, acts[0]), acts[1..]);
    }
  }

  // ---------------------------------------------------------------- reaching any count

  /** Nothing pending, nobody filling a slot, `n` tasks through so far, producer 0 free. */
  ghost predicate EmptyAt(s: State, n: nat) {
    && Invariant(s) && s.drainer.DIdle? && NobodyCopying(s) && |s.producers| > 0 && s.producers[0].Idle?
    && s.pendingRead == |s.reserved| == n && n < U32
  }

  /** As above with `k` tasks pending, the first of them `first`. */
  ghost predicate FilledTo(s: State, n: nat, k: nat, first: Task) {
    && Invariant(s) && s.drainer.DIdle? && NobodyCopying(s) && |s.producers| > 0 && s.producers[0].Idle?
    && s.pendingRead == n && |s.reserved| == n + k && n + k < U32
    && (k > 0 ==> s.reserved[n] == first)
  }

  lemma IndicesAt(s: State)
    requires Invariant(s) && |s.reserved| < U32
    ensures Shape(s) && s.pendingRead <= |s.reserved|
    ensures s.pendingWrite == |s.reserved| && Sub32(s.pendingWrite, s.pendingRead) == |s.reserved| - s.pendingRead
  {
    BelowWrap(|s.reserved|, s.pendingRead);
    hide DrainerOk, ProducerOk, SlotOk, Index, Sub32;
  }

  /** One whole call of producer 0 while the drainer is idle. */
  lemma FillOne(s: State, n: nat, k: nat, first: Task)
    requires FilledTo(s, n, k, first) && k + 1 < CAPACITY && n + k + 1 < U32
    ensures var t := Run(s, QueueWhole(0, first));
      FilledTo(t, n, k + 1, first) && t.producers == s.producers && t.handed == s.handed
  {
    IndicesAt(s);
    assert s.producers[0].Idle?;
    hide Step, Run, Add32, Sub32, Cell, Invariant, QueueWhole;
    QueueAlone(s, 0, first);
    RunKeepsInvariant(s, QueueWhole(0, first));
  }

  lemma {:induction false} FillMany(s: State, n: nat, first: Task, k: nat) returns (acts: seq<Action>)
    requires EmptyAt(s, n) && k < CAPACITY && n + k < U32
    ensures var t := Run(s, acts);
      FilledTo(t, n, k, first) && t.producers == s.producers && t.handed == s.handed
  {
    assert Shape(s);
    if k == 0 {
      acts := [];
    } else {
      var before := FillMany(s, n, first, k - 1);
      hide Step, Run, EmptyAt, FilledTo, QueueWhole;
      FillOne(Run(s, before), n, k - 1, first);
      acts := before + QueueWhole(0, first);
      RunConcat(s, before, QueueWhole(0, first));
    }
  }

  lemma SameProducers(s: State, t: State)
    requires NobodyCopying(s) && t.producers == s.producers
    ensures NobodyCopying(t)
  {
  }

  lemma FilledMeans(s: State, n: nat, task: Task)
    requires FilledTo(s, n, 1, task)
    ensures Invariant(s) && s.drainer.DIdle? && NobodyCopying(s) && |s.producers| > 0 && s.producers[0].Idle?
    ensures s.pendingRead == n && |s.reserved| == n + 1 < U32
  {
    hide Invariant, NobodyCopying;
  }

  lemma MakeEmpty(s: State, t: State, n: nat)
    requires NobodyCopying(s) && |s.producers| > 0 && s.producers[0].Idle? && t.producers == s.producers
    requires Invariant(t) && t.drainer.DIdle? && t.pendingRead == |t.reserved| == n < U32
    ensures EmptyAt(t, n)
  {
    hide Invariant;
    SameProducers(s, t);
  }

  /** One undisturbed pass over a single pending task. */
  lemma DrainOne(s: State, n: nat, task: Task)
    requires FilledTo(s, n, 1, task)
    ensures EmptyAt(Run(s, DrainPass(1)), n + 1) && Run(s, DrainPass(1)).producers == s.producers
  {
    FilledMeans(s, n, task);
    assert Shape(s);
    hide *;
    var pending := |s.reserved| - s.pendingRead;
    assert pending == 1;
    DrainPassHandsOverEverything(s);
    var t := Run(s, DrainPass(pending));
    RunKeepsInvariant(s, DrainPass(1));
    MakeEmpty(s, t, n + 1);
  }

  /** Queue one task, drain it: over and over, below the wrap, up to any count. Other producers stay where they are. */
  lemma {:induction false} ReachCount(s: State, task: Task, n: nat) returns (acts: seq<Action>)
    requires EmptyAt(s, 0) && n < U32
    ensures EmptyAt(Run(s, acts), n) && Run(s, acts).producers == s.producers
  {
    assert Shape(s);
    if n == 0 {
      acts := [];
    } else {
      var before := ReachCount(s, task, n - 1);
      hide Step, Run, EmptyAt, FilledTo, QueueWhole, DrainPass;
      var t := Run(s, before);
      var fill := FillMany(t, n - 1, task, 1);
      DrainOne(Run(t, fill), n - 1, task);
      RunConcat(s, before, fill);
      RunConcat(s, before + fill, DrainPass(1));
      acts := before + fill + DrainPass(1);
    }
  }

  // ---------------------------------------------------------------- one reservation further

  /** Producer 1 stops right before its compare-and-swap, having loaded 0 and 0. */
  ghost function Park(b: Task): seq<Action> {
    [QueueCall(1, b)] + [QueueLoadRead(1)] + [QueueLoadWrite(1)]
  }

  lemma {:induction false} Parked(s: State, b: Task)
    requires Initial(s) && |s.producers| >= 2
    ensures var t := Run(s, Park(b));
      EmptyAt(t, 0) && t.producers == s.producers[1 := LoadedBoth(b, 0, 0)]
  {
    var s3 := s.(producers := s.producers[1 := LoadedBoth(b, 0, 0)]);
    ParkSteps(s, b);
    InitialInvariant(s);
    assert s.reserved == [] && s3.producers[0].Idle? && NobodyCopying(s3);
    hide Step, Run, Invariant, Park, Initial;
    RunKeepsInvariant(s, Park(b));
  }

  lemma ParkStep(s: State, a: Action, pc: Producer)
    requires Shape(s) && |s.producers| >= 2 && s.pendingWrite == 0 && s.pendingRead == 0
    requires match a
      case QueueCall(1, b) => s.producers[1].Idle? && pc == Starting(b)
      case QueueLoadRead(1) => s.producers[1].Starting? && pc == LoadedRead(s.producers[1].task, 0)
      case QueueLoadWrite(1) => s.producers[1].LoadedRead? && s.producers[1].read == 0
                                && pc == LoadedBoth(s.producers[1].task, 0, 0)
      case _ => false
    ensures Step(s, a) == s.(producers := s.producers[1 := pc])
  {
    assert Sub32(0, 0) == 0;
    hide Sub32, Add32, Cell;
  }

  lemma {:induction false} ParkSteps(s: State, b: Task)
    requires Initial(s) && |s.producers| >= 2
    ensures Run(s, Park(b)) == s.(producers := s.producers[1 := LoadedBoth(b, 0, 0)])
  {
    assert s.producers[1].Idle? && Shape(s) && s.pendingWrite == 0 && s.pendingRead == 0;
    hide Step, Run, Initial;
    var s1 := Step(s, QueueCall(1, b));
    ParkStep(s, QueueCall(1, b), Starting(b));
    var s2 := Step(s1, QueueLoadRead(1));
    ParkStep(s1, QueueLoadRead(1), LoadedRead(b, 0));
    ParkStep(s2, QueueLoadWrite(1), LoadedBoth(b, 0, 0));
    RunOne(s, QueueCall(1, b));
    RunOne(s1, QueueLoadRead(1));
    RunOne(s2, QueueLoadWrite(1));
    RunConcat(s, [QueueCall(1, b)], [QueueLoadRead(1)]);
    RunConcat(s, [QueueCall(1, b)] + [QueueLoadRead(1)], [QueueLoadWrite(1)]);
    assert s.producers[1 := Starting(b)][1 := LoadedRead(b, 0)][1 := LoadedBoth(b, 0, 0)]
        == s.producers[1 := LoadedBoth(b, 0, 0)];
  }

  const LAST: nat := U32 - CAPACITY

  /** The drainer has begun a pass over 31 pending tasks; the next reservation will wrap the write index. */
  ghost predicate PassBegun(s: State, a: Task, b: Task) {
    && Invariant(s) && NobodyCopying(s)
    && |s.producers| >= 2 && s.producers[0].Idle? && s.producers[1] == LoadedBoth(b, 0, 0)
    && s.drainer == DLoop(LAST, U32 - 1)
    && s.pendingRead == LAST && |s.reserved| == U32 - 1 && s.reserved[LAST] == a
  }

  lemma BeginPass(s: State, a: Task, b: Task)
    requires FilledTo(s, LAST, CAPACITY - 1, a) && |s.producers| >= 2 && s.producers[1] == LoadedBoth(b, 0, 0)
    ensures PassBegun(Run(s, [DrainCall] + [DrainLoadWrite]), a, b)
  {
    IndicesAt(s);
    var s1 := Step(s, DrainCall);
    var s2 := Step(s1, DrainLoadWrite);
    assert s2 == s.(drainer := DLoop(LAST, U32 - 1));
    RunOne(s, DrainCall);
    RunOne(s1, DrainLoadWrite);
    hide Step, Run, Invariant;
    RunConcat(s, [DrainCall], [DrainLoadWrite]);
    RunKeepsInvariant(s, [DrainCall] + [DrainLoadWrite]);
  }

  /** 2^32 reservations, all 32 cells held, and the write index back at 0, where producer 1 expects it. */
  ghost predicate Wrapped(s: State, a: Task, b: Task) {
    && Invariant(s) && |s.producers| >= 2 && s.producers[1] == LoadedBoth(b, 0, 0)
    && s.drainer == DLoop(LAST, U32 - 1)
    && s.pendingRead == LAST && |s.reserved| == U32 && s.pendingWrite == 0 && s.reserved[LAST] == a
    && s.ready[0]
  }

  lemma FillLast(s: State, a: Task, b: Task)
    requires PassBegun(s, a, b)
    ensures Wrapped(Run(s, QueueWhole(0, a)), a, b)
  {
    IndicesAt(s);
    assert Add32(U32 - 1, 1) == 0;
    FirstCellReady(s);
    hide Step, Run, Add32, Sub32, Invariant, QueueWhole;
    QueueAlone(s, 0, a);
    RunKeepsInvariant(s, QueueWhole(0, a));
    hide Cell;
  }

  /** The head's cell is cell 0, and nobody is still filling it. */
  lemma FirstCellReady(s: State)
    requires Invariant(s) && s.pendingRead == LAST && |s.reserved| > LAST && !s.drainer.DCleared?
    requires |s.producers| >= 2
    ensures Cell(LAST) == 0 && Cell(0) == 0 && Cell(U32 - 1) == 31
    ensures NobodyCopying(s) ==> s.ready[0]
  {
    assert SlotOk(s, LAST);
  }

  /** The stale compare-and-swap succeeds and producer 1 fills the head's cell over again. */
  ghost function Overtake(): seq<Action> {
    [QueueCas(1)] + Repeat(QueueCopyWord(1), TASK_WORDS)
  }

  lemma Overwritten(s: State, a: Task, b: Task)
    requires Wrapped(s, a, b)
    ensures var t := Run(s, Overtake());
      && Shape(t) && t.slots[0] == b && t.ready[0] && t.drainer == DLoop(LAST, U32 - 1)
      && |t.reserved| == U32 + 1 && t.reserved[LAST] == a && t.handed == s.handed
  {
    var s1 := Step(s, QueueCas(1));
    assert s1.producers[1] == Copying(b, 0, 0) && Cell(0) == 0;
    RunOne(s, QueueCas(1));
    hide Step, Run, Invariant, Cell;
    QueueCopyAlone(s1, 1);
    RunConcat(s, [QueueCas(1)], Repeat(QueueCopyWord(1), TASK_WORDS));
  }

  lemma NotPrefix(handed: seq<Task>, reserved: seq<Task>, i: nat)
    requires i < |handed| && i < |reserved| && handed[i] != reserved[i]
    ensures !(handed <= reserved)
  {
  }

  lemma HandedSoFar(s: State, a: Task, b: Task)
    requires Wrapped(s, a, b)
    ensures |s.handed| == LAST && Cell(LAST) == 0
  {
    hide ProducerOk, SlotOk, Index;
  }

  lemma HandsOverWrongTask(s: State, a: Task, b: Task)
    requires Wrapped(s, a, b) && a != b
    ensures var t := Run(Run(s, Overtake()), HandOne());
      |t.reserved| == U32 + 1 && !(t.handed <= t.reserved)
  {
    Overwritten(s, a, b);
    HandedSoFar(s, a, b);
    hide Step, Run, Wrapped, Cell, Overtake, HandOne, Add32;
    var u := Run(s, Overtake());
    HandOneAlone(u);
    var t := Run(u, HandOne());
    assert t.handed == s.handed + [b] && t.reserved == u.reserved;
    NotPrefix(t.handed, t.reserved, LAST);
  }

  /**
   The run that breaks the order with 2^32 + 1 reservations. Producer 1 loads both indices, 0 and 0, and sleeps. 2^32 tasks
   later, with all 32 cells held and the drainer at the oldest of them, the write index is 0 again, so its compare-and-swap
   succeeds; it fills the oldest cell a second time, and the drainer hands over the newest task in place of the oldest.
   */
  lemma OrderBreaksPastWrap(s: State, a: Task, b: Task) returns (acts: seq<Action>)
    requires Initial(s) && |s.producers| >= 2 && a != b
    ensures |Run(s, acts).reserved| == U32 + 1 && !(Run(s, acts).handed <= Run(s, acts).reserved)
  {
    Parked(s, b);
    var s1 := Run(s, Park(b));
    var reach := ReachCount(s1, a, LAST);
    var s2 := Run(s1, reach);
    var fill := FillMany(s2, LAST, a, CAPACITY - 1);
    var s3 := Run(s2, fill);
    var begin := [DrainCall] + [DrainLoadWrite];
    assert |s3.producers| == |s.producers| && s3.producers[1] == LoadedBoth(b, 0, 0);
    hide Step, Run, EmptyAt, FilledTo, PassBegun, Wrapped, QueueWhole, Overtake, HandOne, Park;
    BeginPass(s3, a, b);
    FillLast(Run(s3, begin), a, b);
    HandsOverWrongTask(Run(Run(s3, begin), QueueWhole(0, a)), a, b);
    RunConcat(s, Park(b), reach);
    RunConcat(s, Park(b) + reach, fill);
    RunConcat(s, Park(b) + reach + fill, begin);
    RunConcat(s, Park(b) + reach + fill + begin, QueueWhole(0, a));
    RunConcat(s, Park(b) + reach + fill + begin + QueueWhole(0, a), Overtake());
    RunConcat(s, Park(b) + reach + fill + begin + QueueWhole(0, a) + Overtake(), HandOne());
    acts := Park(b) + reach + fill + begin + QueueWhole(0, a) + Overtake() + HandOne();
  }

  /**
   The exact condition of order: it holds in all runs of up to `n` reservations iff n <= 2^32, or there is at most one
   producer.
   */
  lemma OrderHoldsIff(s: State, n: nat)
    requires Initial(s)
    ensures (forall acts :: |Run(s, acts).reserved| <= n ==> Run(s, acts).handed <= Run(s, acts).reserved)
       <==> n <= U32 || |s.producers| <= 1
  {
    if n <= U32 || |s.producers| <= 1 {
      forall acts | |Run(s, acts).reserved| <= n ensures Run(s, acts).handed <= Run(s, acts).reserved {
        if n <= U32 {
          HandedInReservationOrder(s, acts);
        } else {
          SoloKeepsOrder(s, acts);
        }
      }
    } else {
      var a: Task, b: Task := [0, 0, 0, 0, 0, 0, 0], [1, 0, 0, 0, 0, 0, 0];
      assert a[0] != b[0];
      var acts := OrderBreaksPastWrap(s, a, b);
    }
  }
}
