/**
 The pending-task queue of the PLC scheduler (core/plc/plc_scheduler.c:290-355): any number of
 producers reserve a slot with a compare-and-swap, fill it word by word and raise its ready flag;
 the scheduler thread alone drains. Every atomic load, compare-and-swap and store, and every
 copied word of a task, is one step.
 */
module PendingQueue {
  import opened Schedules
  import opened Words

  const CAPACITY: nat := 32

  /** name, fn, ctx, period_ms, phase_ms, last_run_ms, policy. */
  const TASK_WORDS: nat := 7

  type Task = t: seq<int> | |t| == TASK_WORDS witness [0, 0, 0, 0, 0, 0, 0]

  /** Where a producer stands inside plc_scheduler_queue_task. */
  datatype Producer =
    | Idle
    | Starting(task: Task)
    | LoadedRead(task: Task, read: u32)
    | LoadedBoth(task: Task, read: u32, write: u32)
    | Copying(task: Task, write: u32, copied: nat)

  /** Where the scheduler thread stands inside plc_scheduler_drain_pending. */
  datatype Drainer =
    | DIdle
    | DLoadedRead(read: u32)
    | DLoop(read: u32, write: u32)
    | DCopying(read: u32, write: u32, words: seq<int>)
    | DCleared(read: u32, write: u32, task: Task)
    | DHanding(read: u32, write: u32, task: Task)

  /**
   The shared queue, every thread, and three histories: the tasks in the order their slots
   were reserved, who reserved each, and the tasks handed to plc_scheduler_add_task_internal.
   */
  datatype State = State(
    pendingWrite: u32,
    pendingRead: u32,
    ready: seq<bool>,
    slots: seq<Task>,
    producers: seq<Producer>,
    drainer: Drainer,
    reserved: seq<Task>,
    owner: seq<nat>,
    handed: seq<Task>
  )

  datatype Action =
    | QueueCall(p: nat, task: Task)
    | QueueLoadRead(p: nat)
    | QueueLoadWrite(p: nat)
    | QueueCas(p: nat)
    | QueueCopyWord(p: nat)
    | QueueSetReady(p: nat)
    | DrainCall
    | DrainLoadWrite
    | DrainTest
    | DrainCopyWord
    | DrainClear
    | DrainAdvance
    | DrainHand

  ghost predicate Shape(s: State) {
    |s.ready| == CAPACITY && |s.slots| == CAPACITY
  }

  ghost predicate Initial(s: State) {
    && Shape(s)
    && s.pendingWrite == 0 && s.pendingRead == 0
    && (forall i :: 0 <= i < CAPACITY ==> !s.ready[i])
    && (forall p :: 0 <= p < |s.producers| ==> s.producers[p].Idle?)
    && s.drainer.DIdle?
    && s.reserved == [] && s.owner == [] && s.handed == []
  }

  /** The array cell of a ticket. */
  function Cell(ticket: nat): (cell: nat)
    ensures cell < CAPACITY
  {
    ticket % CAPACITY
  }

  ghost function ProducerStep(s: State, p: nat, a: Action): State
    requires Shape(s) && p < |s.producers|
  {
    var pc := s.producers[p];
    match a
    case QueueCall(_, t) =>
      if pc.Idle? then s.(producers := s.producers[p := Starting(t)]) else s
    case QueueLoadRead(_) =>
      if pc.Starting? then s.(producers := s.producers[p := LoadedRead(pc.task, s.pendingRead)]) else s
    case QueueLoadWrite(_) =>
      if !pc.LoadedRead? then s
      else if Sub32(s.pendingWrite, pc.read) >= CAPACITY then s.(producers := s.producers[p := Idle])
      else s.(producers := s.producers[p := LoadedBoth(pc.task, pc.read, s.pendingWrite)])
    case QueueCas(_) =>
      if !pc.LoadedBoth? then s
      else if s.pendingWrite != pc.write then s.(producers := s.producers[p := Starting(pc.task)])
      else s.(pendingWrite := Add32(pc.write, 1),
              producers := s.producers[p := Copying(pc.task, pc.write, 0)],
              reserved := s.reserved + [pc.task],
              owner := s.owner + [p])
    case QueueCopyWord(_) =>
      if pc.Copying? && pc.copied < TASK_WORDS then
        var slot := Cell(pc.write);
        s.(slots := s.slots[slot := s.slots[slot][pc.copied := pc.task[pc.copied]]],
           producers := s.producers[p := pc.(copied := pc.copied + 1)])
      else s
    case QueueSetReady(_) =>
      if pc.Copying? && pc.copied == TASK_WORDS then
        s.(ready := s.ready[Cell(pc.write) := true], producers := s.producers[p := Idle])
      else s
    case _ => s
  }

  ghost function DrainerStep(s: State, a: Action): State
    requires Shape(s)
  {
    var d := s.drainer;
    match a
    case DrainCall =>
      if d.DIdle? then s.(drainer := DLoadedRead(s.pendingRead)) else s
    case DrainLoadWrite =>
      if d.DLoadedRead? then s.(drainer := DLoop(d.read, s.pendingWrite)) else s
    case DrainTest =>
      if !d.DLoop? then s
      else if d.read < d.write && s.ready[Cell(d.read)] then s.(drainer := DCopying(d.read, d.write, []))
      else s.(drainer := DIdle)
    case DrainCopyWord =>
      if d.DCopying? && |d.words| < TASK_WORDS then
        s.(drainer := d.(words := d.words + [s.slots[Cell(d.read)][|d.words|]]))
      else s
    case DrainClear =>
      if d.DCopying? && |d.words| == TASK_WORDS then
        s.(ready := s.ready[Cell(d.read) := false], drainer := DCleared(d.read, d.write, d.words))
      else s
    case DrainAdvance =>
      if d.DCleared? then
        s.(pendingRead := Add32(d.read, 1), drainer := DHanding(Add32(d.read, 1), d.write, d.task))
      else s
    case DrainHand =>
      if d.DHanding? then s.(handed := s.handed + [d.task], drainer := DLoop(d.read, d.write)) else s
    case _ => s
  }

  /** One step of one thread; a step its thread cannot take now changes nothing. */
  ghost function Step(s: State, a: Action): (t: State)
    requires Shape(s)
    ensures Shape(t) && |t.producers| == |s.producers| && |s.reserved| <= |t.reserved|
  {
    if a.QueueCall? || a.QueueLoadRead? || a.QueueLoadWrite? || a.QueueCas? || a.QueueCopyWord? || a.QueueSetReady?
    then if a.p < |s.producers| then ProducerStep(s, a.p, a) else s
    else DrainerStep(s, a)
  }

  ghost function Run(s: State, acts: seq<Action>): (t: State)
    requires Shape(s)
    ensures Shape(t) && |t.producers| == |s.producers| && |s.reserved| <= |t.reserved|
    decreases |acts|
  {
    if acts == [] then s else Run(Step(s, acts[0]), acts[1..])
  }

  // ---------------------------------------------------------------- invariant

  /** Tickets from pendingRead up to the number of reservations are held; the write index may just have wrapped to 0. */
  ghost predicate Counters(s: State) {
    && Shape(s) && |s.owner| == |s.reserved| <= U32
    && s.pendingWrite == Index(|s.reserved|)
    && s.pendingRead <= |s.reserved| <= s.pendingRead + CAPACITY
  }

  ghost predicate DrainerOk(s: State)
    requires Counters(s)
  {
    var r := s.pendingRead;
    && |s.handed| == (if s.drainer.DHanding? then r - 1 else r)
    && s.handed <= s.reserved
    && match s.drainer
       case DIdle => true
       case DLoadedRead(dr) => dr == r
       case DLoop(dr, dw) => dr == r && dw <= |s.reserved|
       case DCopying(dr, dw, words) =>
         dr == r < dw && dw <= |s.reserved| && s.ready[Cell(r)] && words <= s.reserved[r]
       case DCleared(dr, dw, task) =>
         dr == r < dw && dw <= |s.reserved| && !s.ready[Cell(r)] && task == s.reserved[r]
       case DHanding(dr, dw, task) =>
         dr == r && 0 < r && dw <= |s.reserved| && task == s.reserved[r - 1]
  }

  /** The slot the drainer has just cleared but not yet released. */
  ghost predicate JustCleared(s: State, i: int) {
    s.drainer.DCleared? && i == s.pendingRead
  }

  ghost predicate ProducerOk(s: State, p: nat)
    requires Counters(s) && p < |s.producers|
  {
    match s.producers[p]
    case Idle => true
    case Starting(_) => true
    case LoadedRead(_, pr) => pr <= s.pendingRead
    case LoadedBoth(_, pr, pw) =>
      |s.reserved| < U32 ==> pr <= s.pendingRead && pr <= pw < pr + CAPACITY && pw <= |s.reserved|
    case Copying(t, pw, k) =>
      && s.pendingRead <= pw < |s.reserved| && !JustCleared(s, pw)
      && s.owner[pw] == p && s.reserved[pw] == t
      && !s.ready[Cell(pw)] && k <= TASK_WORDS && s.slots[Cell(pw)][..k] == t[..k]
  }

  /** A reserved slot is either published, and then whole, or its one owner is still filling it. */
  ghost predicate SlotOk(s: State, i: nat)
    requires Counters(s) && i < |s.reserved|
  {
    && (s.ready[Cell(i)] ==> s.slots[Cell(i)] == s.reserved[i])
    && (!s.ready[Cell(i)] && !JustCleared(s, i) ==>
        s.owner[i] < |s.producers| && s.producers[s.owner[i]].Copying? && s.producers[s.owner[i]].write == i)
  }

  ghost predicate Invariant(s: State) {
    && Counters(s)
    && DrainerOk(s)
    && (forall p :: 0 <= p < |s.producers| ==> ProducerOk(s, p))
    && (forall i :: s.pendingRead <= i < |s.reserved| ==> SlotOk(s, i))
    && (forall i :: |s.reserved| <= i < s.pendingRead + CAPACITY ==> !s.ready[Cell(i)])
  }

  /** The tickets of one window of 32 fall on 32 different cells. */
  lemma CellsDiffer(from: nat)
    ensures forall i, j :: from <= i < j < from + CAPACITY ==> Cell(i) != Cell(j)
  {
  }

  lemma BelowWrap(n: nat, old_r: nat)
    requires old_r <= n < U32
    ensures Index(n) == n && Sub32(n, old_r) == n - old_r
  {
  }

  /** A producer's loads and its refusal change nothing but where it stands. */
  lemma LoadsChange(s: State, p: nat, a: Action)
    requires Invariant(s) && p < |s.producers| && (a.QueueCall? || a.QueueLoadRead? || a.QueueLoadWrite?)
    ensures var t := ProducerStep(s, p, a);
      t == s.(producers := t.producers) && Counters(t) && t.producers == s.producers[p := t.producers[p]]
    ensures var t := ProducerStep(s, p, a);
      t != s ==> !t.producers[p].Copying? && !s.producers[p].Copying? && ProducerOk(t, p)
  {
    assert ProducerOk(s, p);
    if s.producers[p].LoadedRead? && |s.reserved| < U32 {
      BelowWrap(|s.reserved|, s.producers[p].read);
    }
    hide Cell, Index, Sub32, Add32, SlotOk, DrainerOk;
  }

  lemma LoadsKeepInvariant(s: State, p: nat, a: Action)
    requires Invariant(s) && p < |s.producers| && (a.QueueCall? || a.QueueLoadRead? || a.QueueLoadWrite?)
    ensures Invariant(ProducerStep(s, p, a))
  {
    hide Cell, Index, Sub32, Add32, ProducerStep;
    LoadsChange(s, p, a);
    var t := ProducerStep(s, p, a);
    if t != s {
      forall q | 0 <= q < |t.producers| ensures ProducerOk(t, q) {
        assert ProducerOk(s, q);
      }
      forall i | t.pendingRead <= i < |t.reserved| ensures SlotOk(t, i) {
        assert SlotOk(s, i);
      }
    }
  }

  /** What a successful compare-and-swap changes: one more reservation, by `p`, whose cell is not ready. */
  lemma CasChanges(s: State, p: nat)
    requires Invariant(s) && p < |s.producers| && |ProducerStep(s, p, QueueCas(p)).reserved| <= U32
    ensures var t := ProducerStep(s, p, QueueCas(p));
      Counters(t) && ProducerOk(t, p)
      && t == s.(pendingWrite := t.pendingWrite, producers := s.producers[p := t.producers[p]],
                 reserved := t.reserved, owner := t.owner)
      && if t.reserved == s.reserved then t == s || (t.owner == s.owner && !t.producers[p].Copying? && !s.producers[p].Copying?)
         else t.producers[p].Copying? && !s.producers[p].Copying? && t.producers[p].write == |s.reserved|
              && t.reserved == s.reserved + [t.producers[p].task] && t.owner == s.owner + [p]
  {
    var t := ProducerStep(s, p, QueueCas(p));
    if t.reserved != s.reserved {
      BelowWrap(|s.reserved|, 0);
      AddIndex(|s.reserved|, 1);
    }
    assert ProducerOk(s, p);
    hide Cell, Index, Add32, Sub32, SlotOk, DrainerOk;
  }

  lemma CasKeepsInvariant(s: State, p: nat)
    requires Invariant(s) && p < |s.producers| && |ProducerStep(s, p, QueueCas(p)).reserved| <= U32
    ensures Invariant(ProducerStep(s, p, QueueCas(p)))
  {
    hide Cell, Index, Add32, Sub32, ProducerStep;
    CasChanges(s, p);
    var t := ProducerStep(s, p, QueueCas(p));
    forall q | 0 <= q < |t.producers| ensures ProducerOk(t, q) {
      assert ProducerOk(s, q);
    }
    forall i | t.pendingRead <= i < |t.reserved| ensures SlotOk(t, i) {
      assert i < |s.reserved| ==> SlotOk(s, i);
    }
  }

  lemma CopyKeepsInvariant(s: State, p: nat)
    requires Invariant(s) && p < |s.producers|
    ensures Invariant(ProducerStep(s, p, QueueCopyWord(p)))
  {
    CellsDiffer(s.pendingRead);
    hide Cell;
    var t := ProducerStep(s, p, QueueCopyWord(p));
    assert ProducerOk(s, p);
    if t != s {
      var pc := s.producers[p];
      assert t.slots[Cell(pc.write)][..pc.copied + 1] == pc.task[..pc.copied + 1];
      forall q | 0 <= q < |t.producers| ensures ProducerOk(t, q) {
        assert ProducerOk(s, q);
      }
      forall i | t.pendingRead <= i < |t.reserved| ensures SlotOk(t, i) {
        assert SlotOk(s, i);
      }
    }
  }

  lemma SetReadyKeepsInvariant(s: State, p: nat)
    requires Invariant(s) && p < |s.producers|
    ensures Invariant(ProducerStep(s, p, QueueSetReady(p)))
  {
    CellsDiffer(s.pendingRead);
    hide Cell;
    var t := ProducerStep(s, p, QueueSetReady(p));
    assert ProducerOk(s, p);
    if t != s {
      var w := s.producers[p].write;
      assert s.slots[Cell(w)] == s.reserved[w];
      forall q | 0 <= q < |t.producers| ensures ProducerOk(t, q) {
        assert ProducerOk(s, q);
      }
      forall i | t.pendingRead <= i < |t.reserved| ensures SlotOk(t, i) {
        assert SlotOk(s, i);
      }
    }
  }

  /** What the head of the queue looks like, and that the window after it still has 32 cells. */
  lemma HeadFacts(s: State)
    requires Invariant(s)
    ensures s.pendingRead < |s.reserved| ==> SlotOk(s, s.pendingRead)
    ensures s.pendingRead + 1 < U32 ==> Add32(s.pendingRead, 1) == s.pendingRead + 1
    ensures Cell(s.pendingRead + CAPACITY) == Cell(s.pendingRead)
  {
  }

  /** The drainer's loads, its test and its word copies write nothing shared. */
  lemma DrainerReads(s: State, a: Action)
    requires Invariant(s) && !a.DrainClear? && !a.DrainAdvance? && !a.DrainHand?
    ensures var t := DrainerStep(s, a);
      t == s.(drainer := t.drainer) && Counters(t) && DrainerOk(t) && (t.drainer.DCleared? <==> s.drainer.DCleared?)
  {
    HeadFacts(s);
    hide Cell, Add32, Sub32, Index, ProducerOk;
  }

  lemma DrainerReadsKeepInvariant(s: State, a: Action)
    requires Invariant(s) && !a.DrainClear? && !a.DrainAdvance? && !a.DrainHand?
    ensures Invariant(DrainerStep(s, a))
  {
    hide Cell, Add32, Sub32, Index, DrainerStep, DrainerOk;
    DrainerReads(s, a);
    var t := DrainerStep(s, a);
    forall q | 0 <= q < |t.producers| ensures ProducerOk(t, q) {
      assert ProducerOk(s, q);
    }
    forall i | t.pendingRead <= i < |t.reserved| ensures SlotOk(t, i) {
      assert SlotOk(s, i);
    }
  }

  lemma ClearKeepsInvariant(s: State)
    requires Invariant(s)
    ensures Invariant(DrainerStep(s, DrainClear))
  {
    CellsDiffer(s.pendingRead);
    HeadFacts(s);
    hide Cell, Add32, Sub32, Index;
    var t := DrainerStep(s, DrainClear);
    if t != s {
      assert t.drainer.task == s.reserved[s.pendingRead];
      forall q | 0 <= q < |t.producers| ensures ProducerOk(t, q) {
        assert ProducerOk(s, q);
      }
      forall i | t.pendingRead <= i < |t.reserved| ensures SlotOk(t, i) {
        assert SlotOk(s, i);
      }
    }
  }

  lemma AdvanceKeepsInvariant(s: State)
    requires Invariant(s)
    ensures Invariant(DrainerStep(s, DrainAdvance))
  {
    HeadFacts(s);
    hide Cell, Add32, Sub32, Index;
    var t := DrainerStep(s, DrainAdvance);
    forall q | 0 <= q < |t.producers| ensures ProducerOk(t, q) {
      assert ProducerOk(s, q);
    }
    forall i | t.pendingRead <= i < |t.reserved| ensures SlotOk(t, i) {
      assert SlotOk(s, i);
    }
  }

  /** Handing over touches only the drainer and the history. */
  lemma HandChanges(s: State)
    requires Invariant(s)
    ensures var t := DrainerStep(s, DrainHand);
      && t == s.(drainer := t.drainer, handed := t.handed) && Counters(t) && DrainerOk(t)
      && (t.drainer.DCleared? <==> s.drainer.DCleared?)
  {
    hide Cell, Index, ProducerOk, SlotOk;
    var t := DrainerStep(s, DrainHand);
    if t != s {
      assert t.handed == t.reserved[..s.pendingRead];
    }
  }

  lemma HandKeepsInvariant(s: State)
    requires Invariant(s)
    ensures Invariant(DrainerStep(s, DrainHand))
  {
    hide Cell, Add32, Sub32, Index, DrainerStep, DrainerOk;
    HandChanges(s);
    var t := DrainerStep(s, DrainHand);
    forall q | 0 <= q < |t.producers| ensures ProducerOk(t, q) {
      assert ProducerOk(s, q);
    }
    forall i | t.pendingRead <= i < |t.reserved| ensures SlotOk(t, i) {
      assert SlotOk(s, i);
    }
  }

  lemma StepKeepsInvariant(s: State, a: Action)
    requires Invariant(s) && |Step(s, a).reserved| <= U32
    ensures Invariant(Step(s, a))
  {
    match a
    case QueueCall(p, _) => if p < |s.producers| { LoadsKeepInvariant(s, p, a); }
    case QueueLoadRead(p) => if p < |s.producers| { LoadsKeepInvariant(s, p, a); }
    case QueueLoadWrite(p) => if p < |s.producers| { LoadsKeepInvariant(s, p, a); }
    case QueueCas(p) => if p < |s.producers| { CasKeepsInvariant(s, p); }
    case QueueCopyWord(p) => if p < |s.producers| { CopyKeepsInvariant(s, p); }
    case QueueSetReady(p) => if p < |s.producers| { SetReadyKeepsInvariant(s, p); }
    case DrainClear => ClearKeepsInvariant(s);
    case DrainAdvance => AdvanceKeepsInvariant(s);
    case DrainHand => HandKeepsInvariant(s);
    case _ => DrainerReadsKeepInvariant(s, a);
  }

  lemma {:induction false} RunKeepsInvariant(s: State, acts: seq<Action>)
    requires Invariant(s) && |Run(s, acts).reserved| <= U32
    ensures Invariant(Run(s, acts))
    decreases |acts|
  {
    hide Step;
    if acts != [] {
      assert |Step(s, acts[0]).reserved| <= U32;
      StepKeepsInvariant(s, acts[0]);
      RunKeepsInvariant(Step(s, acts[0]), acts[1..]);
    }
  }

  lemma {:induction false} RunConcat(s: State, a: seq<Action>, b: seq<Action>)
    requires Shape(s)
    ensures Run(s, a + b) == Run(Run(s, a), b)
    decreases |a|
  {
    hide Step;
    if a == [] {
      assert a + b == b;
    } else {
      assert (a + b)[0] == a[0] && (a + b)[1..] == a[1..] + b;
      RunConcat(Step(s, a[0]), a[1..], b);
    }
  }

  // ---------------------------------------------------------------- main results

  /**
   In every interleaving of any number of producers with the drainer, up to 2^32 queued tasks: the tasks handed to
   the scheduler are a prefix of the reservations, each whole, in order, once, none skipped; and never more than
   32 slots are held.
   */
  lemma HandedInReservationOrder(s: State, acts: seq<Action>)
    requires Initial(s) && |Run(s, acts).reserved| <= U32
    ensures var t := Run(s, acts);
      && t.handed <= t.reserved
      && t.pendingWrite == Index(|t.reserved|)
      && t.pendingRead <= |t.reserved| <= t.pendingRead + CAPACITY
      && |t.handed| <= t.pendingRead <= |t.handed| + 1
  {
    InitialInvariant(s);
    RunKeepsInvariant(s, acts);
  }

  lemma InitialInvariant(s: State)
    requires Initial(s)
    ensures Invariant(s)
  {
    forall p | 0 <= p < |s.producers| ensures ProducerOk(s, p) {
      assert s.producers[p].Idle?;
    }
  }

  /** A cell is touched by one thread at a time: never two producers, never a producer and the drainer. */
  lemma OneOwnerPerCell(s: State, p: nat, q: nat)
    requires Invariant(s) && p < |s.producers| && q < |s.producers| && s.producers[p].Copying?
    ensures p != q && s.producers[q].Copying? ==> Cell(s.producers[p].write) != Cell(s.producers[q].write)
    ensures s.drainer.DCopying? || s.drainer.DCleared? ==> Cell(s.producers[p].write) != Cell(s.drainer.read)
    ensures s.producers[p].write < |s.owner| && s.owner[s.producers[p].write] == p
  {
    assert ProducerOk(s, p) && ProducerOk(s, q);
    CellsDiffer(s.pendingRead);
    hide Cell;
  }

  // ---------------------------------------------------------------- the drainer alone

  /** Every call has returned. */
  ghost predicate Quiet(s: State) {
    Shape(s) && s.drainer.DIdle? && forall p :: 0 <= p < |s.producers| ==> s.producers[p].Idle?
  }

  /** The steps that take one published task out of the queue and hand it over. */
  ghost function HandOne(): seq<Action> {
    [DrainTest] + Repeat(DrainCopyWord, TASK_WORDS) + [DrainClear, DrainAdvance, DrainHand]
  }

  ghost function HandMany(n: nat): seq<Action> {
    if n == 0 then [] else HandOne() + HandMany(n - 1)
  }

  /** One whole call to plc_scheduler_drain_pending that finds `n` tasks published. */
  ghost function DrainPass(n: nat): seq<Action> {
    [DrainCall, DrainLoadWrite] + HandMany(n) + [DrainTest]
  }

  lemma RunOne(s: State, a: Action)
    requires Shape(s)
    ensures Run(s, [a]) == Step(s, a)
  {
    assert Run(s, [a]) == Run(Step(s, a), []);
  }

  lemma RunCons(s: State, a: Action, rest: seq<Action>)
    requires Shape(s)
    ensures Run(s, [a] + rest) == Run(Step(s, a), rest)
  {
    assert ([a] + rest)[1..] == rest;
  }

  lemma {:induction false} DrainCopyAlone(s: State)
    requires Shape(s) && s.drainer.DCopying? && s.drainer.words <= s.slots[Cell(s.drainer.read)]
    ensures Run(s, Repeat(DrainCopyWord, TASK_WORDS - |s.drainer.words|))
         == s.(drainer := s.drainer.(words := s.slots[Cell(s.drainer.read)]))
    decreases TASK_WORDS - |s.drainer.words|
  {
    hide Cell;
    var n := |s.drainer.words|;
    if n < TASK_WORDS {
      RepeatFront(DrainCopyWord, TASK_WORDS - n);
      DrainCopyAlone(Step(s, DrainCopyWord));
    }
  }

  ghost function AfterHanding(s: State): State
    requires Shape(s) && s.drainer.DLoop?
  {
    var d := s.drainer;
    s.(ready := s.ready[Cell(d.read) := false], pendingRead := Add32(d.read, 1),
       handed := s.handed + [s.slots[Cell(d.read)]], drainer := DLoop(Add32(d.read, 1), d.write))
  }

  lemma HandOneAlone(s: State)
    requires Shape(s) && s.drainer.DLoop? && s.drainer.read < s.drainer.write && s.ready[Cell(s.drainer.read)]
    ensures Run(s, HandOne()) == AfterHanding(s)
  {
    hide Cell, Add32;
    var copy, finish := Repeat(DrainCopyWord, TASK_WORDS), [DrainClear, DrainAdvance, DrainHand];
    var s1 := Step(s, DrainTest);
    RunOne(s, DrainTest);
    DrainCopyAlone(s1);
    var s2 := Run(s1, copy);
    assert Run(s2, finish) == AfterHanding(s) by {
      FinishAlone(s2);
    }
    hide Run, Step;
    RunConcat(s, [DrainTest], copy);
    RunConcat(s, [DrainTest] + copy, finish);
  }

  lemma FinishAlone(s: State)
    requires Shape(s) && s.drainer.DCopying? && |s.drainer.words| == TASK_WORDS
    ensures var d := s.drainer;
      Run(s, [DrainClear, DrainAdvance, DrainHand])
        == s.(ready := s.ready[Cell(d.read) := false], pendingRead := Add32(d.read, 1),
              handed := s.handed + [d.words], drainer := DLoop(Add32(d.read, 1), d.write))
  {
    hide Cell, Add32;
    var s3 := Step(s, DrainClear);
    var s4 := Step(s3, DrainAdvance);
    RunCons(s, DrainClear, [DrainAdvance, DrainHand]);
    RunCons(s3, DrainAdvance, [DrainHand]);
    RunOne(s4, DrainHand);
    assert [DrainClear, DrainAdvance, DrainHand] == [DrainClear] + [DrainAdvance, DrainHand];
    assert [DrainAdvance, DrainHand] == [DrainAdvance] + [DrainHand];
  }

  /** The next `n` tickets to be drained are published, and whole. */
  ghost predicate Published(s: State, n: nat)
    requires Counters(s)
  {
    && s.pendingRead + n <= |s.reserved|
    && forall i :: s.pendingRead <= i < s.pendingRead + n ==> s.ready[Cell(i)] && s.slots[Cell(i)] == s.reserved[i]
  }

  /** The drainer is between two tasks of a pass that may still take `n`. */
  ghost predicate Draining(s: State, n: nat) {
    && Counters(s) && Published(s, n)
    && s.handed == s.reserved[..s.pendingRead]
    && s.drainer.DLoop? && s.drainer.read == s.pendingRead && s.pendingRead + n <= s.drainer.write
  }

  lemma HandingKeepsDraining(s: State, n: nat)
    requires n > 0 && Draining(s, n)
    ensures Draining(AfterHanding(s), n - 1) && AfterHanding(s).pendingRead == s.pendingRead + 1
  {
    var r, t := s.pendingRead, AfterHanding(s);
    CellsDiffer(r);
    BelowWrap(r + 1, 0);
    assert Add32(r, 1) == r + 1;
    hide Cell, Add32, Sub32;
    assert s.slots[Cell(r)] == s.reserved[r];
    assert t.handed == s.reserved[..r + 1];
  }

  lemma DrainingMeans(s: State, n: nat)
    requires n > 0 && Draining(s, n)
    ensures Shape(s) && s.drainer.DLoop? && s.drainer.read < s.drainer.write && s.ready[Cell(s.drainer.read)]
  {
  }

  /** One task further: what remains is a shorter drain from the state after handing it over. */
  lemma HandFirstOfMany(s: State, n: nat)
    requires n > 0 && Draining(s, n)
    ensures Shape(s) && s.drainer.DLoop?
    ensures Run(s, HandMany(n)) == Run(AfterHanding(s), HandMany(n - 1))
  {
    DrainingMeans(s, n);
    hide Step, Run, Draining, HandOne, Cell, Add32, Counters;
    HandOneAlone(s);
    RunConcat(s, HandOne(), HandMany(n - 1));
  }

  /** Besides taking tasks out, a drain changes nothing, and it raises no ready flag. */
  ghost predicate OnlyDrained(s: State, t: State)
    requires Shape(s) && Shape(t)
  {
    && t.reserved == s.reserved && t.owner == s.owner && t.producers == s.producers
    && t.pendingWrite == s.pendingWrite && t.slots == s.slots
    && forall c :: 0 <= c < CAPACITY && t.ready[c] ==> s.ready[c]
  }

  lemma HandingOnlyDrains(s: State)
    requires Shape(s) && s.drainer.DLoop?
    ensures Shape(AfterHanding(s)) && OnlyDrained(s, AfterHanding(s)) && AfterHanding(s).drainer.DLoop?
    ensures AfterHanding(s).drainer.write == s.drainer.write
  {
    hide Cell, Add32;
  }

  lemma {:induction false} HandManyAlone(s: State, n: nat)
    requires Draining(s, n)
    ensures var t := Run(s, HandMany(n));
      && Draining(t, 0) && t.pendingRead == s.pendingRead + n && OnlyDrained(s, t)
      && t.drainer.write == s.drainer.write
    decreases n
  {
    hide Step, HandOne, Cell, Add32, Index;
    if n > 0 {
      HandFirstOfMany(s, n);
      HandingKeepsDraining(s, n);
      HandingOnlyDrains(s);
      hide Draining, AfterHanding;
      HandManyAlone(AfterHanding(s), n - 1);
    }
  }

  /** How many tickets, counted from the `i`-th held one, are published without a hole. */
  ghost function PublishedRun(s: State, i: nat): (n: nat)
    requires Counters(s) && s.pendingRead + i <= |s.reserved|
    ensures s.pendingRead + i + n <= |s.reserved|
    ensures forall k :: s.pendingRead + i <= k < s.pendingRead + i + n ==> s.ready[Cell(k)]
    ensures s.pendingRead + i + n < |s.reserved| ==> !s.ready[Cell(s.pendingRead + i + n)]
    decreases |s.reserved| - s.pendingRead - i
  {
    hide Cell, Index;
    if s.pendingRead + i < |s.reserved| && s.ready[Cell(s.pendingRead + i)] then 1 + PublishedRun(s, i + 1) else 0
  }

  lemma {:induction false} StartDraining(s: State)
    requires Invariant(s) && s.drainer.DIdle? && |s.reserved| < U32
    ensures Run(s, [DrainCall, DrainLoadWrite]) == s.(drainer := DLoop(s.pendingRead, s.pendingWrite))
    ensures Draining(s.(drainer := DLoop(s.pendingRead, s.pendingWrite)), PublishedRun(s, 0))
  {
    var n := PublishedRun(s, 0);
    BelowWrap(|s.reserved|, 0);
    hide Cell, Index;
    forall i | s.pendingRead <= i < s.pendingRead + n ensures s.ready[Cell(i)] && s.slots[Cell(i)] == s.reserved[i] {
      assert SlotOk(s, i);
    }
    var loop := DLoop(s.pendingRead, s.pendingWrite);
    assert Draining(s.(drainer := loop), n);
    hide Invariant, Draining, PublishedRun;
    var loaded := s.(drainer := DLoadedRead(s.pendingRead));
    assert Step(s, DrainCall) == loaded;
    assert Step(loaded, DrainLoadWrite) == s.(drainer := loop);
    hide Step;
    assert [DrainCall, DrainLoadWrite] == [DrainCall] + [DrainLoadWrite];
    RunCons(s, DrainCall, [DrainLoadWrite]);
    RunOne(loaded, DrainLoadWrite);
  }

  /** The pass ends at a hole, or where the write index stood. */
  lemma PassEnds(s: State, t: State)
    requires Invariant(s) && |s.reserved| < U32 && Shape(t) && OnlyDrained(s, t)
    requires Draining(t, 0) && t.pendingRead == s.pendingRead + PublishedRun(s, 0) && t.drainer.write == s.pendingWrite
    ensures Step(t, DrainTest) == t.(drainer := DIdle)
  {
    BelowWrap(|s.reserved|, 0);
    hide Cell, Index;
  }

  /**
   With producers anywhere inside their calls, one undisturbed drain pass hands over exactly the tasks up to the first
   reserved ticket that is not yet published, and changes nothing else.
   */
  lemma {:induction false} DrainPassStopsAtFirstHole(s: State)
    requires Invariant(s) && s.drainer.DIdle? && |s.reserved| < U32
    ensures var n := PublishedRun(s, 0);
      var t := Run(s, DrainPass(n));
      && t.handed == s.reserved[..s.pendingRead + n] && t.pendingRead == s.pendingRead + n
      && t.drainer.DIdle? && OnlyDrained(s, t)
  {
    var n := PublishedRun(s, 0);
    StartDraining(s);
    var s2 := s.(drainer := DLoop(s.pendingRead, s.pendingWrite));
    assert Shape(s2) && OnlyDrained(s, s2);
    HandManyAlone(s2, n);
    var s3 := Run(s2, HandMany(n));
    PassEnds(s, s3);
    hide Run, Step, HandMany, Invariant, PublishedRun, Cell, Index;
    RunOne(s3, DrainTest);
    RunConcat(s, [DrainCall, DrainLoadWrite], HandMany(n));
    RunConcat(s, [DrainCall, DrainLoadWrite] + HandMany(n), [DrainTest]);
  }

  ghost predicate NobodyCopying(s: State) {
    forall p :: 0 <= p < |s.producers| ==> !s.producers[p].Copying?
  }

  /** Where no producer is filling a slot, every held ticket is published. */
  lemma NoHoles(s: State)
    requires Invariant(s) && s.drainer.DIdle? && NobodyCopying(s)
    ensures s.pendingRead + PublishedRun(s, 0) == |s.reserved|
  {
    var k := s.pendingRead + PublishedRun(s, 0);
    if k < |s.reserved| {
      assert SlotOk(s, k);
    }
    hide Cell, Index;
  }

  /** With every producer returned, or not yet past its reservation, the pass hands over every accepted task. */
  lemma DrainPassHandsOverEverything(s: State)
    requires Invariant(s) && s.drainer.DIdle? && NobodyCopying(s) && |s.reserved| < U32
    ensures var t := Run(s, DrainPass(|s.reserved| - s.pendingRead));
      && t.handed == t.reserved == s.reserved && t.pendingRead == |s.reserved|
      && t.pendingWrite == s.pendingWrite && t.drainer.DIdle? && t.producers == s.producers
  {
    NoHoles(s);
    DrainPassStopsAtFirstHole(s);
    hide Run, PublishedRun, Invariant, DrainPass;
    assert s.reserved[..|s.reserved|] == s.reserved;
  }

  // ---------------------------------------------------------------- a producer alone

  /** The steps of one call to plc_scheduler_queue_task that nothing interrupts. */
  ghost function QueueWhole(p: nat, task: Task): seq<Action> {
    [QueueCall(p, task), QueueLoadRead(p), QueueLoadWrite(p), QueueCas(p)]
      + Repeat(QueueCopyWord(p), TASK_WORDS) + [QueueSetReady(p)]
  }

  lemma {:induction false} QueueCopyAlone(s: State, p: nat)
    requires Shape(s) && p < |s.producers| && s.producers[p].Copying? && s.producers[p].copied <= TASK_WORDS
    requires var pc := s.producers[p]; s.slots[Cell(pc.write)][..pc.copied] == pc.task[..pc.copied]
    ensures var pc := s.producers[p];
      Run(s, Repeat(QueueCopyWord(p), TASK_WORDS - pc.copied))
        == s.(slots := s.slots[Cell(pc.write) := pc.task], producers := s.producers[p := pc.(copied := TASK_WORDS)])
    decreases TASK_WORDS - s.producers[p].copied
  {
    hide Cell;
    var pc := s.producers[p];
    var cell := Cell(pc.write);
    if pc.copied == TASK_WORDS {
      assert s.slots[cell] == pc.task;
      assert s.slots == s.slots[cell := pc.task] && s.producers == s.producers[p := pc];
    } else {
      RepeatFront(QueueCopyWord(p), TASK_WORDS - pc.copied);
      var t := Step(s, QueueCopyWord(p));
      assert t.slots[cell][..pc.copied + 1] == pc.task[..pc.copied + 1];
      QueueCopyAlone(t, p);
      assert t.slots[cell := pc.task] == s.slots[cell := pc.task];
      assert t.producers[p := pc.(copied := TASK_WORDS)] == s.producers[p := pc.(copied := TASK_WORDS)];
    }
  }

  lemma ReserveAlone(s: State, p: nat, task: Task)
    requires Shape(s) && p < |s.producers| && s.producers[p].Idle?
    requires Sub32(s.pendingWrite, s.pendingRead) < CAPACITY
    ensures Run(s, [QueueCall(p, task), QueueLoadRead(p), QueueLoadWrite(p), QueueCas(p)])
         == s.(pendingWrite := Add32(s.pendingWrite, 1),
               producers := s.producers[p := Copying(task, s.pendingWrite, 0)],
               reserved := s.reserved + [task], owner := s.owner + [p])
  {
    hide Sub32, Add32;
    var a1, a2, a3, a4 := QueueCall(p, task), QueueLoadRead(p), QueueLoadWrite(p), QueueCas(p);
    var s1 := Step(s, a1);
    var s2 := Step(s1, a2);
    var s3 := Step(s2, a3);
    assert [a1, a2, a3, a4] == [a1] + [a2, a3, a4] && [a2, a3, a4] == [a2] + [a3, a4] && [a3, a4] == [a3] + [a4];
    RunCons(s, a1, [a2, a3, a4]);
    RunCons(s1, a2, [a3, a4]);
    RunCons(s2, a3, [a4]);
    RunOne(s3, a4);
  }

  lemma {:induction false} QueueAlone(s: State, p: nat, task: Task)
    requires Shape(s) && p < |s.producers| && s.producers[p].Idle?
    requires Sub32(s.pendingWrite, s.pendingRead) < CAPACITY
    ensures Run(s, QueueWhole(p, task))
         == s.(pendingWrite := Add32(s.pendingWrite, 1),
               slots := s.slots[Cell(s.pendingWrite) := task], ready := s.ready[Cell(s.pendingWrite) := true],
               reserved := s.reserved + [task], owner := s.owner + [p])
  {
    hide Sub32, Add32, Cell;
    var reserve := [QueueCall(p, task), QueueLoadRead(p), QueueLoadWrite(p), QueueCas(p)];
    var copy := Repeat(QueueCopyWord(p), TASK_WORDS);
    ReserveAlone(s, p, task);
    var s1 := Run(s, reserve);
    QueueCopyAlone(s1, p);
    var s2 := Run(s1, copy);
    RunOne(s2, QueueSetReady(p));
    assert s2.producers[p := Idle] == s.producers;
    RunConcat(s, reserve, copy);
    RunConcat(s, reserve + copy, [QueueSetReady(p)]);
  }
}
