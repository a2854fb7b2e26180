/**
 The pending queue with a single producer, or none (core/plc/plc_scheduler.c:290-355), without a bound on the number of
 reservations. Its compare-and-swap is never stale, so what is handed over stays in order across the wrap of the write
 index; the drain still stalls there, and the queue then fills up for good.
 */
module PendingSolo {
  import opened PendingQueue
  import opened Words

  /** The write index is the wrapped count of reservations; the read index never wraps. */
  ghost predicate Counts(s: State) {
    && Shape(s) && |s.producers| <= 1
    && s.pendingWrite == Index(|s.reserved|)
    && s.pendingRead <= |s.reserved| <= s.pendingRead + CAPACITY
  }

  ghost predicate DrainOk(s: State)
    requires Counts(s)
  {
    var r := s.pendingRead;
    && |s.handed| == (if s.drainer.DHanding? then r - 1 else r)
    && s.handed <= s.reserved
    && match s.drainer
       case DIdle => true
       case DLoadedRead(dr) => dr == r
       case DLoop(dr, dw) => dr == r && dw <= |s.reserved|
       case DCopying(dr, dw, words) =>
         dr == r < dw && dw <= |s.reserved| && s.ready[Cell(r)] && words <= s.reserved[r]
       case DCleared(dr, dw, task) =>
         dr == r < dw && dw <= |s.reserved| && !s.ready[Cell(r)] && task == s.reserved[r]
       case DHanding(dr, dw, task) =>
         dr == r && 0 < r && dw <= |s.reserved| && task == s.reserved[r - 1]
  }

  /** The producer is filling the slot of the newest reservation. */
  ghost predicate Filling(s: State) {
    s.producers != [] && s.producers[0].Copying?
  }

  /** What it has loaded is at most one queue length old, and nobody else moves the write index. */
  ghost predicate LoadOk(s: State)
    requires Counts(s)
  {
    s.producers != [] ==>
      match s.producers[0]
      case LoadedRead(_, pr) => pr <= s.pendingRead && |s.reserved| <= pr + CAPACITY
      case LoadedBoth(_, pr, pw) => pr <= s.pendingRead && |s.reserved| < pr + CAPACITY && pw == s.pendingWrite
      case _ => true
  }

  ghost predicate FillOk(s: State)
    requires Counts(s)
  {
    Filling(s) ==>
      var n, p := |s.reserved| - 1, s.producers[0];
      && s.pendingRead <= n && !JustCleared(s, n) && s.reserved[n] == p.task
      && Cell(p.write) == Cell(n)
      && !s.ready[Cell(n)] && p.copied <= TASK_WORDS && s.slots[Cell(n)][..p.copied] == p.task[..p.copied]
  }

  /** A held slot is published and whole, unless it is the newest and being filled, or just cleared. */
  ghost predicate HeldOk(s: State, i: nat)
    requires Counts(s) && i < |s.reserved|
  {
    && (s.ready[Cell(i)] ==> s.slots[Cell(i)] == s.reserved[i])
    && (!s.ready[Cell(i)] && !JustCleared(s, i) ==> Filling(s) && i == |s.reserved| - 1)
  }

  ghost predicate Solo(s: State) {
    && Counts(s) && DrainOk(s) && LoadOk(s) && FillOk(s)
    && (forall i :: s.pendingRead <= i < |s.reserved| ==> HeldOk(s, i))
    && (forall i :: |s.reserved| <= i < s.pendingRead + CAPACITY ==> !s.ready[Cell(i)])
  }

  lemma InitialSolo(s: State)
    requires Initial(s) && |s.producers| <= 1
    ensures Solo(s)
  {
  }

  /** The two words of arithmetic: fill level and next index from the wrapped write index. */
  lemma LevelOf(n: nat, read: u32)
    requires read <= n <= read + CAPACITY
    ensures Sub32(Index(n), read) == n - read
  {
    SubIndex(n, read);
  }

  lemma NextTicket(n: nat)
    ensures Add32(Index(n), 1) == Index(n + 1) && Cell(Index(n)) == Cell(n)
  {
    AddIndex(n, 1);
    SlotOfIndex(n, CAPACITY);
  }

  lemma LoadsKeepSolo(s: State, a: Action)
    requires Solo(s) && |s.producers| == 1 && (a.QueueCall? || a.QueueLoadRead? || a.QueueLoadWrite?)
    ensures Solo(ProducerStep(s, 0, a))
  {
    if s.producers[0].LoadedRead? {
      LevelOf(|s.reserved|, s.producers[0].read);
    }
    hide Cell, Index, Sub32, Add32;
    var t := ProducerStep(s, 0, a);
    forall i | t.pendingRead <= i < |t.reserved| ensures HeldOk(t, i) {
      assert HeldOk(s, i);
    }
  }

  lemma CasKeepsSolo(s: State)
    requires Solo(s) && |s.producers| == 1
    ensures Solo(ProducerStep(s, 0, QueueCas(0)))
  {
    NextTicket(|s.reserved|);
    hide Cell, Index, Sub32, Add32;
    var t := ProducerStep(s, 0, QueueCas(0));
    forall i | t.pendingRead <= i < |t.reserved| ensures HeldOk(t, i) {
      assert i < |s.reserved| ==> HeldOk(s, i);
    }
  }

  lemma FillKeepsSolo(s: State, a: Action)
    requires Solo(s) && |s.producers| == 1 && (a.QueueCopyWord? || a.QueueSetReady?)
    ensures Solo(ProducerStep(s, 0, a))
  {
    CellsDiffer(s.pendingRead);
    hide Cell, Index, Sub32, Add32;
    var t := ProducerStep(s, 0, a);
    if t != s {
      var p := s.producers[0];
      if a.QueueCopyWord? {
        assert t.slots[Cell(p.write)][..p.copied + 1] == p.task[..p.copied + 1];
      } else {
        assert s.slots[Cell(p.write)] == p.task;
      }
      forall i | t.pendingRead <= i < |t.reserved| ensures HeldOk(t, i) {
        assert HeldOk(s, i);
      }
    }
  }

  lemma SmallIndices(read: u32, n: nat)
    ensures read + 1 < U32 ==> Add32(read, 1) == read + 1
    ensures Cell(read + CAPACITY) == Cell(read)
    ensures Index(n) <= n
  {
  }

  lemma HeadOk(s: State)
    requires Solo(s)
    ensures s.pendingRead < |s.reserved| ==> HeldOk(s, s.pendingRead)
    ensures s.pendingRead + 1 < U32 ==> Add32(s.pendingRead, 1) == s.pendingRead + 1
    ensures Cell(s.pendingRead + CAPACITY) == Cell(s.pendingRead)
    ensures s.pendingWrite <= |s.reserved|
  {
    SmallIndices(s.pendingRead, |s.reserved|);
    hide Cell, Index, Add32, DrainOk, LoadOk, FillOk, HeldOk;
  }

  lemma DrainReadsKeepSolo(s: State, a: Action)
    requires Solo(s) && !a.DrainClear? && !a.DrainAdvance? && !a.DrainHand?
    ensures Solo(DrainerStep(s, a))
  {
    HeadOk(s);
    hide Cell, Add32, Sub32, Index;
    var t := DrainerStep(s, a);
    forall i | t.pendingRead <= i < |t.reserved| ensures HeldOk(t, i) {
      assert HeldOk(s, i);
    }
  }

  lemma ClearKeepsSolo(s: State)
    requires Solo(s)
    ensures Solo(DrainerStep(s, DrainClear))
  {
    CellsDiffer(s.pendingRead);
    HeadOk(s);
    hide Cell, Add32, Sub32, Index;
    var t := DrainerStep(s, DrainClear);
    if t != s {
      assert t.drainer.task == s.reserved[s.pendingRead];
      forall i | t.pendingRead <= i < |t.reserved| ensures HeldOk(t, i) {
        assert HeldOk(s, i);
      }
    }
  }

  lemma AdvanceKeepsSolo(s: State, a: Action)
    requires Solo(s) && (a.DrainAdvance? || a.DrainHand?)
    ensures Solo(DrainerStep(s, a))
  {
    HeadOk(s);
    hide Cell, Add32, Sub32, Index;
    var t := DrainerStep(s, a);
    if a.DrainHand? && t != s {
      assert t.handed == t.reserved[..s.pendingRead];
    }
    forall i | t.pendingRead <= i < |t.reserved| ensures HeldOk(t, i) {
      assert HeldOk(s, i);
    }
  }

  lemma ProducerKeepsSolo(s: State, p: nat, a: Action)
    requires Solo(s) && p < |s.producers|
    requires a.QueueCall? || a.QueueLoadRead? || a.QueueLoadWrite? || a.QueueCopyWord? || a.QueueSetReady? || a == QueueCas(p)
    ensures Solo(ProducerStep(s, p, a))
  {
    assert p == 0 && |s.producers| == 1;
    hide Solo, ProducerStep;
    if a.QueueCas? {
      CasKeepsSolo(s);
    } else if a.QueueCopyWord? || a.QueueSetReady? {
      FillKeepsSolo(s, a);
    } else {
      LoadsKeepSolo(s, a);
    }
  }

  lemma StepKeepsSolo(s: State, a: Action)
    requires Solo(s)
    ensures Solo(Step(s, a))
  {
    assert Shape(s);
    hide Solo, ProducerStep, DrainerStep;
    match a
    case DrainClear => ClearKeepsSolo(s);
    case DrainAdvance => AdvanceKeepsSolo(s, a);
    case DrainHand => AdvanceKeepsSolo(s, a);
    case DrainCall => DrainReadsKeepSolo(s, a);
    case DrainLoadWrite => DrainReadsKeepSolo(s, a);
    case DrainTest => DrainReadsKeepSolo(s, a);
    case DrainCopyWord => DrainReadsKeepSolo(s, a);
    case _ => if a.p < |s.producers| { ProducerKeepsSolo(s, a.p, a); }
  }

  lemma {:induction false} RunKeepsSolo(s: State, acts: seq<Action>)
    requires Solo(s)
    ensures Solo(Run(s, acts))
    decreases |acts|
  {
    assert Shape(s);
    hide Step, Solo;
    if acts != [] {
      StepKeepsSolo(s, acts[0]);
      RunKeepsSolo(Step(s, acts[0]), acts[1..]);
    }
  }

  /**
   With at most one producer, in every run of any length: what is handed over is a prefix of the reservations, and the
   queue never accepts more than 2^32 + 31 tasks in all.
   */
  lemma SoloKeepsOrder(s: State, acts: seq<Action>)
    requires Initial(s) && |s.producers| <= 1
    ensures var t := Run(s, acts);
      && t.handed <= t.reserved
      && t.pendingRead <= |t.reserved| <= t.pendingRead + CAPACITY && |t.reserved| < U32 + CAPACITY
  {
    InitialSolo(s);
    RunKeepsSolo(s, acts);
  }
}
