/**
 The single-producer single-consumer ring (core/ipc/spsc_ring.c).

 Two views. `State` and `Step` interleave one producer thread and one consumer thread
 at the granularity of one atomic load or store, and one copied byte, per step. The class
 `SpscRing` is the code as it runs when nothing interferes. Both are read through the same
 abstraction: the queue of elements between the read index and the write index.
 */
module Spsc {
  import opened Words
  import opened RingWindow
  import opened Schedules

  type Elem = seq<byte>

  // ---------------------------------------------------------------- interleaved steps

  /** Program counter and locals of spsc_ring_push. */
  datatype Producer =
    | PIdle
    | PLoadedRead(elem: Elem, read: u32)
    | PCopying(elem: Elem, write: u32, copied: nat)

  /** Program counter and locals of spsc_ring_pop. */
  datatype Consumer =
    | CIdle
    | CLoadedRead(read: u32)
    | CCopying(read: u32, out: Elem)

  /** Shared memory, both threads, and the history of completed pushes and pops. */
  datatype State = State(
    capacity: nat,
    elemSize: nat,
    storage: seq<Elem>,
    readIndex: u32,
    writeIndex: u32,
    producer: Producer,
    consumer: Consumer,
    pushed: seq<Elem>,
    popped: seq<Elem>
  )

  datatype Action =
    | PushLoadRead(elem: Elem)
    | PushLoadWrite
    | PushCopyByte
    | PushPublish
    | PopLoadRead
    | PopLoadWrite
    | PopCopyByte
    | PopPublish

  ghost predicate Geometry(s: State) {
    && 0 < s.capacity < U32 && 0 < s.elemSize
    && |s.storage| == s.capacity
    && forall i :: 0 <= i < s.capacity ==> |s.storage[i]| == s.elemSize
  }

  ghost predicate Initial(s: State) {
    && Geometry(s)
    && s.readIndex == 0 && s.writeIndex == 0
    && s.producer.PIdle? && s.consumer.CIdle?
    && s.pushed == [] && s.popped == []
  }

  /** One atomic step of either thread; an action that its thread cannot take now does nothing. */
  ghost function Step(s: State, a: Action): State
    requires s.capacity > 0 && |s.storage| == s.capacity
  {
    match a
    case PushLoadRead(e) =>
      if s.producer.PIdle? && |e| == s.elemSize then s.(producer := PLoadedRead(e, s.readIndex)) else s
    case PushLoadWrite =>
      if !s.producer.PLoadedRead? then s
      else if Sub32(s.writeIndex, s.producer.read) >= s.capacity then s.(producer := PIdle)
      else s.(producer := PCopying(s.producer.elem, s.writeIndex, 0))
    case PushCopyByte =>
      if s.producer.PCopying? && s.producer.copied < |s.producer.elem| then
        var p := s.producer;
        var slot := Slot(p.write, s.capacity);
        if p.copied < |s.storage[slot]| then
          s.(storage := s.storage[slot := s.storage[slot][p.copied := p.elem[p.copied]]],
             producer := p.(copied := p.copied + 1))
        else s
      else s
    case PushPublish =>
      if s.producer.PCopying? && s.producer.copied == |s.producer.elem| then
        s.(writeIndex := Add32(s.producer.write, 1), pushed := s.pushed + [s.producer.elem], producer := PIdle)
      else s
    case PopLoadRead =>
      if s.consumer.CIdle? then s.(consumer := CLoadedRead(s.readIndex)) else s
    case PopLoadWrite =>
      if !s.consumer.CLoadedRead? then s
      else if s.consumer.read == s.writeIndex then s.(consumer := CIdle)
      else s.(consumer := CCopying(s.consumer.read, []))
    case PopCopyByte =>
      if s.consumer.CCopying? && |s.consumer.out| < s.elemSize then
        var c := s.consumer;
        var slot := Slot(c.read, s.capacity);
        if |c.out| < |s.storage[slot]| then
          s.(consumer := c.(out := c.out + [s.storage[slot][|c.out|]]))
        else s
      else s
    case PopPublish =>
      if s.consumer.CCopying? && |s.consumer.out| == s.elemSize then
        s.(readIndex := Add32(s.consumer.read, 1), popped := s.popped + [s.consumer.out], consumer := CIdle)
      else s
  }

  lemma StepKeepsGeometry(s: State, a: Action)
    requires Geometry(s)
    ensures Geometry(Step(s, a))
    ensures Step(s, a).capacity == s.capacity && Step(s, a).elemSize == s.elemSize
  {
  }

  /** Any interleaving: `acts` names, step after step, the thread that moves. */
  ghost function Run(s: State, acts: seq<Action>): (r: State)
    requires Geometry(s)
    ensures Geometry(r) && r.capacity == s.capacity && r.elemSize == s.elemSize
    decreases |acts|
  {
    if acts == [] then s
    else
      StepKeepsGeometry(s, acts[0]);
      Run(Step(s, acts[0]), acts[1..])
  }

  // ---------------------------------------------------------------- invariant

  ghost predicate Invariant(s: State) {
    && Geometry(s) && U32 % s.capacity == 0
    && var w, r := |s.pushed|, |s.popped|;
    && s.writeIndex == Index(w) && s.readIndex == Index(r)
    && r <= w <= r + s.capacity
    && s.popped == s.pushed[..r]
    && (forall i :: r <= i < w ==> s.storage[Slot(i, s.capacity)] == s.pushed[i])
    && (match s.producer
        case PIdle => true
        case PLoadedRead(e, old_r) =>
          |e| == s.elemSize && Sub32(s.writeIndex, old_r) <= s.capacity && w - Sub32(s.writeIndex, old_r) <= r
        case PCopying(e, pw, k) =>
          && |e| == s.elemSize && pw == s.writeIndex && w < r + s.capacity && k <= |e|
          && s.storage[Slot(w, s.capacity)][..k] == e[..k])
    && (match s.consumer
        case CIdle => true
        case CLoadedRead(cr) => cr == s.readIndex
        case CCopying(cr, out) =>
          && cr == s.readIndex && r < w
          && |s.pushed[r]| == s.elemSize && |out| <= s.elemSize && out == s.pushed[r][..|out|])
  }

  /** The arithmetic the invariant needs, with the counts on one side and the indices on the other. */
  lemma IndexFacts(s: State)
    requires Invariant(s)
    ensures Sub32(s.writeIndex, s.readIndex) == |s.pushed| - |s.popped|
    ensures Slot(s.writeIndex, s.capacity) == Slot(|s.pushed|, s.capacity)
    ensures Slot(s.readIndex, s.capacity) == Slot(|s.popped|, s.capacity)
    ensures Add32(s.writeIndex, 1) == Index(|s.pushed| + 1)
    ensures Add32(s.readIndex, 1) == Index(|s.popped| + 1)
    ensures forall i :: |s.popped| <= i < |s.pushed| < |s.popped| + s.capacity ==>
        Slot(i, s.capacity) != Slot(|s.pushed|, s.capacity)
  {
    var w, r := |s.pushed|, |s.popped|;
    SubIndex(w, r);
    SlotOfIndex(w, s.capacity);
    SlotOfIndex(r, s.capacity);
    AddIndex(w, 1);
    AddIndex(r, 1);
    forall i | r <= i < w < r + s.capacity ensures Slot(i, s.capacity) != Slot(w, s.capacity) {
      SlotsDiffer(i, w, s.capacity);
    }
  }

  lemma PushCopyKeepsInvariant(s: State)
    requires Invariant(s)
    ensures Invariant(Step(s, PushCopyByte))
  {
    IndexFacts(s);
    hide Slot, Add32, Sub32, Index;
    var t := Step(s, PushCopyByte);
    if t != s {
      var slot, k := Slot(|s.pushed|, s.capacity), s.producer.copied;
      assert t.storage[slot][..k + 1] == s.producer.elem[..k + 1];
    }
  }

  lemma PushPublishKeepsInvariant(s: State)
    requires Invariant(s)
    ensures Invariant(Step(s, PushPublish))
  {
    IndexFacts(s);
    hide Slot, Add32, Sub32, Index;
    var t := Step(s, PushPublish);
    if t != s {
      var w := |s.pushed|;
      assert s.storage[Slot(w, s.capacity)] == s.producer.elem;
      assert forall i :: 0 <= i < w ==> t.pushed[i] == s.pushed[i];
      assert t.pushed[..|s.popped|] == s.pushed[..|s.popped|];
    }
  }

  lemma PopKeepsInvariant(s: State, a: Action)
    requires Invariant(s) && (a.PopLoadRead? || a.PopLoadWrite? || a.PopCopyByte? || a.PopPublish?)
    ensures Invariant(Step(s, a))
  {
    IndexFacts(s);
    var r := |s.popped|;
    hide Slot, Add32, Sub32, Index;
    var t := Step(s, a);
    if t != s && !a.PopLoadRead? {
      assert r < |s.pushed| ==> s.storage[Slot(r, s.capacity)] == s.pushed[r];
      if a.PopPublish? {
        assert s.consumer.out == s.pushed[r];
        assert t.popped == s.pushed[..r + 1];
      }
    }
  }

  lemma StepKeepsInvariant(s: State, a: Action)
    requires Invariant(s)
    ensures Invariant(Step(s, a))
  {
    match a
    case PushLoadRead(e) => IndexFacts(s);
    case PushLoadWrite => IndexFacts(s);
    case PushCopyByte => PushCopyKeepsInvariant(s);
    case PushPublish => PushPublishKeepsInvariant(s);
    case _ => PopKeepsInvariant(s, a);
  }

  lemma {:induction false} RunKeepsInvariant(s: State, acts: seq<Action>)
    requires Invariant(s)
    ensures Invariant(Run(s, acts))
    decreases |acts|
  {
    if acts != [] {
      StepKeepsInvariant(s, acts[0]);
      RunKeepsInvariant(Step(s, acts[0]), acts[1..]);
    }
  }

  lemma {:induction false} RunConcat(s: State, a: seq<Action>, b: seq<Action>)
    requires Geometry(s)
    ensures Run(s, a + b) == Run(Run(s, a), b)
    decreases |a|
  {
    if a == [] {
      assert a + b == b;
    } else {
      hide Step;
      assert (a + b)[0] == a[0] && (a + b)[1..] == a[1..] + b;
      StepKeepsGeometry(s, a[0]);
      RunConcat(Step(s, a[0]), a[1..], b);
    }
  }

  // ---------------------------------------------------------------- main results

  /** What a bounded FIFO promises: pops return the pushes in order, and at most `capacity` are stored. */
  ghost predicate Fifo(s: State) {
    && s.popped <= s.pushed
    && |s.pushed| <= |s.popped| + s.capacity
  }

  /** The two threads are never copying into and out of the same slot. */
  ghost predicate SlotsExclusive(s: State)
    requires s.capacity > 0
  {
    s.producer.PCopying? && s.consumer.CCopying? ==>
      Slot(s.producer.write, s.capacity) != Slot(s.consumer.read, s.capacity)
  }

  lemma InvariantImpliesFifo(s: State)
    requires Invariant(s)
    ensures Fifo(s) && SlotsExclusive(s)
  {
    var w, r := |s.pushed|, |s.popped|;
    SlotOfIndex(w, s.capacity);
    SlotOfIndex(r, s.capacity);
    if s.producer.PCopying? && s.consumer.CCopying? {
      SlotsDiffer(r, w, s.capacity);
    }
  }

  /** Every interleaving of one producer and one consumer, over any number of index wraps, is FIFO. */
  lemma EveryRunIsFifo(s: State, acts: seq<Action>)
    requires Initial(s) && U32 % s.capacity == 0
    ensures Fifo(Run(s, acts)) && SlotsExclusive(Run(s, acts))
  {
    RunKeepsInvariant(s, acts);
    InvariantImpliesFifo(Run(s, acts));
  }

  ghost function Queue(s: State): seq<Elem>
    requires Geometry(s)
  {
    View(s.storage, s.capacity, s.readIndex, s.writeIndex)
  }

  lemma QueueAt(s: State, i: nat)
    requires Invariant(s) && i < |s.pushed| - |s.popped|
    ensures i < |Queue(s)| && Queue(s)[i] == s.pushed[|s.popped| + i]
  {
    SubIndex(|s.pushed|, |s.popped|);
    SlotAfter(|s.popped|, i, s.capacity);
  }

  lemma QueueIsUnpopped(s: State)
    requires Invariant(s)
    ensures Queue(s) == s.pushed[|s.popped|..]
  {
    SubIndex(|s.pushed|, |s.popped|);
    forall i | 0 <= i < |s.pushed| - |s.popped| ensures Queue(s)[i] == s.pushed[|s.popped| + i] {
      QueueAt(s, i);
    }
  }

  /** Which histories a step extends. */
  lemma StepHistory(s: State, a: Action)
    requires Geometry(s)
    ensures var t := Step(s, a);
      match a
      case PushPublish =>
        t == s || (s.producer.PCopying? && t.pushed == s.pushed + [s.producer.elem] && t.popped == s.popped)
      case PopPublish =>
        t == s || (s.consumer.CCopying? && |s.consumer.out| == s.elemSize
                   && t.popped == s.popped + [s.consumer.out] && t.pushed == s.pushed)
      case _ => t.pushed == s.pushed && t.popped == s.popped
  {
  }

  lemma CopiersHold(s: State)
    requires Invariant(s)
    ensures |s.popped| <= |s.pushed|
    ensures s.producer.PCopying? ==> |s.pushed| - |s.popped| < s.capacity
    ensures s.consumer.CCopying? && |s.consumer.out| == s.elemSize ==>
        |s.popped| < |s.pushed| && s.consumer.out == s.pushed[|s.popped|]
  {
  }

  /**
   The ring refines a bounded queue: only PushPublish enqueues, and then there was room;
   only PopPublish dequeues, and it returns the head; every other step leaves the queue alone.
   */
  lemma StepRefinesBoundedQueue(s: State, a: Action)
    requires Invariant(s)
    ensures Invariant(Step(s, a))
    ensures var t := Step(s, a);
      match a
      case PushPublish =>
        t == s || (|Queue(s)| < s.capacity && s.producer.PCopying? && Queue(t) == Queue(s) + [s.producer.elem])
      case PopPublish =>
        t == s || (Queue(s) != [] && t.popped == s.popped + [Queue(s)[0]] && Queue(t) == Queue(s)[1..])
      case _ => Queue(t) == Queue(s)
  {
    var t := Step(s, a);
    StepKeepsInvariant(s, a);
    StepHistory(s, a);
    CopiersHold(s);
    QueueIsUnpopped(s);
    QueueIsUnpopped(t);
    hide Step, Invariant, Queue;
    if a.PushPublish? && t != s {
      assert Queue(t) == Queue(s) + [s.producer.elem];
    }
    if a.PopPublish? && t != s {
      assert t.pushed[|t.popped|..] == s.pushed[|s.popped|..][1..];
    }
  }

  ghost predicate ConsumerOnly(acts: seq<Action>) {
    forall i :: 0 <= i < |acts| ==>
      acts[i].PopLoadRead? || acts[i].PopLoadWrite? || acts[i].PopCopyByte? || acts[i].PopPublish?
  }

  lemma {:induction false} ConsumerLeavesProducer(s: State, acts: seq<Action>)
    requires Geometry(s) && ConsumerOnly(acts)
    ensures var t := Run(s, acts); t.producer == s.producer && t.writeIndex == s.writeIndex && t.pushed == s.pushed
    decreases |acts|
  {
    if acts != [] {
      StepKeepsGeometry(s, acts[0]);
      ConsumerLeavesProducer(Step(s, acts[0]), acts[1..]);
    }
  }

  /** push answers false exactly when the ring was full at the instant it loaded the read index. */
  lemma PushRefusesIffFull(s: State, e: Elem, between: seq<Action>)
    requires Invariant(s) && s.producer.PIdle? && |e| == s.elemSize && ConsumerOnly(between)
    ensures Run(Step(s, PushLoadRead(e)), between).producer.PLoadedRead?
    ensures Step(Run(Step(s, PushLoadRead(e)), between), PushLoadWrite).producer.PIdle?
         <==> |Queue(s)| == s.capacity
  {
    ConsumerLeavesProducer(Step(s, PushLoadRead(e)), between);
    SubIndex(|s.pushed|, |s.popped|);
  }

  /** pop answers false exactly when the ring is empty at the instant it loads the write index. */
  lemma PopRefusesIffEmpty(s: State)
    requires Invariant(s) && s.consumer.CLoadedRead?
    ensures Step(s, PopLoadWrite).consumer.CIdle? <==> Queue(s) == []
  {
    SubIndex(|s.pushed|, |s.popped|);
  }

  // ---------------------------------------------------------------- one thread at a time

  /** The steps of one whole call to push. */
  ghost function PushCall(e: Elem): seq<Action> {
    [PushLoadRead(e), PushLoadWrite] + Repeat(PushCopyByte, |e|) + [PushPublish]
  }

  /** The steps of one whole call to pop. */
  ghost function PopCall(elemSize: nat): seq<Action> {
    [PopLoadRead, PopLoadWrite] + Repeat(PopCopyByte, elemSize) + [PopPublish]
  }

  ghost predicate Quiet(s: State) {
    Geometry(s) && s.producer.PIdle? && s.consumer.CIdle?
  }

  lemma {:induction false} PushCopyAlone(s: State)
    requires Geometry(s) && s.producer.PCopying?
    requires |s.producer.elem| == s.elemSize && s.producer.copied <= s.elemSize
    requires s.storage[Slot(s.producer.write, s.capacity)][..s.producer.copied] == s.producer.elem[..s.producer.copied]
    ensures Run(s, Repeat(PushCopyByte, s.elemSize - s.producer.copied))
         == s.(storage := s.storage[Slot(s.producer.write, s.capacity) := s.producer.elem],
               producer := s.producer.(copied := s.elemSize))
    decreases s.elemSize - s.producer.copied
  {
    var p, slot := s.producer, Slot(s.producer.write, s.capacity);
    if p.copied == s.elemSize {
      assert s.storage[slot] == p.elem;
      assert s.storage == s.storage[slot := p.elem];
    } else {
      RepeatFront(PushCopyByte, s.elemSize - p.copied);
      var t := Step(s, PushCopyByte);
      assert t.storage[slot][..p.copied + 1] == p.elem[..p.copied + 1];
      PushCopyAlone(t);
      assert t.storage[slot := p.elem] == s.storage[slot := p.elem];
    }
  }

  lemma {:induction false} PopCopyAlone(s: State)
    requires Geometry(s) && s.consumer.CCopying? && |s.consumer.out| <= s.elemSize
    requires s.consumer.out == s.storage[Slot(s.consumer.read, s.capacity)][..|s.consumer.out|]
    ensures Run(s, Repeat(PopCopyByte, s.elemSize - |s.consumer.out|))
         == s.(consumer := CCopying(s.consumer.read, s.storage[Slot(s.consumer.read, s.capacity)]))
    decreases s.elemSize - |s.consumer.out|
  {
    var c, slot := s.consumer, Slot(s.consumer.read, s.capacity);
    if |c.out| == s.elemSize {
      assert c.out == s.storage[slot];
    } else {
      RepeatFront(PopCopyByte, s.elemSize - |c.out|);
      PopCopyAlone(Step(s, PopCopyByte));
    }
  }

  /** A call to push that nothing interrupts stores the element and advances the write index by one. */
  lemma RunTwo(s: State, a: Action, b: Action)
    requires Geometry(s)
    ensures Geometry(Step(s, a)) && Run(s, [a]) == Step(s, a) && Run(s, [a, b]) == Step(Step(s, a), b)
  {
    hide Step;
    StepKeepsGeometry(s, a);
    StepKeepsGeometry(Step(s, a), b);
    NothingRun(Step(s, a));
    NothingRun(Step(Step(s, a), b));
    assert [a][1..] == [] && [a, b][1..] == [b] && [b][1..] == [];
    assert Run(s, [a]) == Run(Step(s, a), []);
    assert Run(s, [a, b]) == Run(Step(s, a), [b]) == Run(Step(Step(s, a), b), []);
  }

  /** The two loads of a push that finds room, and its last store. */
  lemma PushEdges(s: State, e: Elem)
    requires Quiet(s) && |e| == s.elemSize && Sub32(s.writeIndex, s.readIndex) < s.capacity
    ensures Step(Step(s, PushLoadRead(e)), PushLoadWrite) == s.(producer := PCopying(e, s.writeIndex, 0))
  {
    hide Slot, Add32, Sub32;
  }

  lemma PushEnds(s: State)
    requires Geometry(s) && s.producer.PCopying? && s.producer.copied == |s.producer.elem| == s.elemSize
    ensures Step(s, PushPublish)
         == s.(writeIndex := Add32(s.producer.write, 1), producer := PIdle, pushed := s.pushed + [s.producer.elem])
  {
    hide Slot, Add32, Sub32;
  }

  lemma PushAlone(s: State, e: Elem)
    requires Quiet(s) && |e| == s.elemSize
    requires Sub32(s.writeIndex, s.readIndex) < s.capacity
    ensures Run(s, PushCall(e))
         == s.(storage := s.storage[Slot(s.writeIndex, s.capacity) := e],
               writeIndex := Add32(s.writeIndex, 1), pushed := s.pushed + [e])
  {
    hide Step, Run, Slot, Add32, Sub32;
    var loads, copy := [PushLoadRead(e), PushLoadWrite], Repeat(PushCopyByte, |e|);
    RunTwo(s, PushLoadRead(e), PushLoadWrite);
    PushEdges(s, e);
    var s2 := s.(producer := PCopying(e, s.writeIndex, 0));
    PushCopyAlone(s2);
    var s3 := Run(s2, copy);
    RunTwo(s3, PushPublish, PushPublish);
    PushEnds(s3);
    RunConcat(s, loads, copy);
    RunConcat(s, loads + copy, [PushPublish]);
  }

  /** A call to pop that nothing interrupts returns the oldest slot and advances the read index by one. */
  /** The two loads of a pop that finds something, and its last store. */
  lemma PopEdges(s: State)
    requires Quiet(s) && s.readIndex != s.writeIndex
    ensures Step(Step(s, PopLoadRead), PopLoadWrite) == s.(consumer := CCopying(s.readIndex, []))
  {
    hide Slot, Add32, Sub32;
  }

  lemma PopEnds(s: State)
    requires Geometry(s) && s.consumer.CCopying? && |s.consumer.out| == s.elemSize
    ensures Step(s, PopPublish)
         == s.(readIndex := Add32(s.consumer.read, 1), consumer := CIdle, popped := s.popped + [s.consumer.out])
  {
    hide Slot, Add32, Sub32;
  }

  lemma PopAlone(s: State)
    requires Quiet(s) && s.readIndex != s.writeIndex
    ensures Run(s, PopCall(s.elemSize))
         == s.(readIndex := Add32(s.readIndex, 1), popped := s.popped + [s.storage[Slot(s.readIndex, s.capacity)]])
  {
    hide Step, Run, Slot, Add32, Sub32;
    var loads, copy := [PopLoadRead, PopLoadWrite], Repeat(PopCopyByte, s.elemSize);
    RunTwo(s, PopLoadRead, PopLoadWrite);
    PopEdges(s);
    var s2 := s.(consumer := CCopying(s.readIndex, []));
    PopCopyAlone(s2);
    var s3 := Run(s2, copy);
    RunTwo(s3, PopPublish, PopPublish);
    PopEnds(s3);
    RunConcat(s, loads, copy);
    RunConcat(s, loads + copy, [PopPublish]);
  }

  // ---------------------------------------------------------------- why the capacity must divide 2^32

  /** A ring that has been filled and emptied `n` times, one element at a time. */
  ghost predicate EmptyAt(s: State, n: nat) {
    && Quiet(s)
    && |s.pushed| == |s.popped| == n && s.popped == s.pushed
    && s.readIndex == s.writeIndex == Index(n)
  }

  /** Reaching any count: push one element, pop it, `n` times over. */
  lemma {:induction false} ReachEmpty(s: State, e: Elem, n: nat) returns (acts: seq<Action>)
    requires Initial(s) && |e| == s.elemSize
    ensures EmptyAt(Run(s, acts), n)
  {
    if n == 0 {
      acts := [];
    } else {
      var before := ReachEmpty(s, e, n - 1);
      var t := Run(s, before);
      PushAlone(t, e);
      var t1 := Run(t, PushCall(e));
      AddIndex(n - 1, 1);
      PopAlone(t1) by { assert t1.readIndex != t1.writeIndex by { SubIndex(n, n - 1); } }
      assert t.storage[Slot(t.writeIndex, s.capacity) := e][Slot(t.writeIndex, s.capacity)] == e;
      RunConcat(s, before, PushCall(e));
      RunConcat(s, before + PushCall(e), PopCall(s.elemSize));
      acts := before + PushCall(e) + PopCall(s.elemSize);
    }
  }

  /** Pushing `k` more elements on top of an emptied ring, as long as they fit. */
  lemma NothingRun(s: State)
    requires Geometry(s)
    ensures Run(s, []) == s
  {
  }

  lemma {:induction false} PushMany(s: State, n: nat, e: Elem, k: nat) returns (acts: seq<Action>)
    requires EmptyAt(s, n) && |e| == s.elemSize && k <= s.capacity
    ensures var t := Run(s, acts);
      && Quiet(t) && t.popped == s.popped && t.readIndex == s.readIndex
      && t.writeIndex == Index(n + k) && |t.pushed| == n + k && s.pushed <= t.pushed
      && (forall i :: n <= i < n + k ==> t.pushed[i] == e)
  {
    hide Step, Run, Slot, Add32, Sub32, Index;
    if k == 0 {
      acts := [];
      NothingRun(s);
    } else {
      var before := PushMany(s, n, e, k - 1);
      var t := Run(s, before);
      SubIndex(n + k - 1, n);
      AddIndex(n + k - 1, 1);
      PushAlone(t, e);
      RunConcat(s, before, PushCall(e));
      acts := before + PushCall(e);
    }
  }

  /** `m` elements `a` fill the last counts before the wrap; the next push, `b`, overwrites the first of them. */
  /** The indices around the wrap: the slot behind the last push is the slot of the oldest element. */
  lemma WrapFacts(capacity: nat)
    requires 0 < capacity < U32 && U32 % capacity != 0
    ensures var m := U32 % capacity; var n := U32 - m;
      && 0 < m < capacity && Index(n) == n && Index(n + m) == 0 && Sub32(0, n) == m
      && Slot(n, capacity) == 0 && Slot(0, capacity) == 0 && Add32(0, 1) == 1 && n != 1
  {
    var m := U32 % capacity;
    ModUnique(U32 - m, capacity, U32 / capacity, 0);
  }

  lemma OverwriteAtWrap(s: State, a: Elem, b: Elem) returns (acts: seq<Action>)
    requires Geometry(s) && U32 % s.capacity != 0 && |a| == |b| == s.elemSize
    requires EmptyAt(s, U32 - U32 % s.capacity)
    ensures var t := Run(s, acts);
      var n := |s.pushed|;
      |t.popped| > n && t.popped[n] == b && |t.pushed| > n && t.pushed[n] == a
  {
    hide Step, Run, Slot, Add32, Sub32, Index;
    WrapFacts(s.capacity);
    var m := U32 % s.capacity;
    var n := U32 - m;
    var fill := PushMany(s, n, a, m);
    var t1 := Run(s, fill);
    PushAlone(t1, b);
    var t2 := Run(t1, PushCall(b));
    PopAlone(t2);
    RunConcat(s, fill, PushCall(b));
    RunConcat(s, fill + PushCall(b), PopCall(s.elemSize));
    acts := fill + PushCall(b) + PopCall(s.elemSize);
  }

  /**
   With a capacity that does not divide 2^32 the slots fall out of step at the wrap: the element
   numbered 2^32 lands on the slot that still holds the unread element 2^32 - (2^32 mod capacity).
   */
  lemma WrapBreaksFifo(s: State) returns (acts: seq<Action>)
    requires Initial(s) && U32 % s.capacity != 0
    ensures !Fifo(Run(s, acts))
  {
    var a: Elem := seq(s.elemSize, _ => 0);
    var b: Elem := seq(s.elemSize, _ => 1);
    assert a[0] != b[0];
    var reach := ReachEmpty(s, a, U32 - U32 % s.capacity);
    hide Step, Slot, Add32, Sub32, Index;
    var over := OverwriteAtWrap(Run(s, reach), a, b);
    RunConcat(s, reach, over);
    acts := reach + over;
  }

  /** The ring is a FIFO in every run exactly when its capacity divides 2^32. */
  lemma FifoIffCapacityDivides(s: State)
    requires Initial(s)
    ensures (forall acts :: Fifo(Run(s, acts))) <==> U32 % s.capacity == 0
  {
    if U32 % s.capacity == 0 {
      forall acts ensures Fifo(Run(s, acts)) {
        EveryRunIsFifo(s, acts);
      }
    } else {
      var acts := WrapBreaksFifo(s);
    }
  }

  // ---------------------------------------------------------------- the code without interference

  /** SpscRing_t, generic in the element; a slot is one array cell. */
  class SpscRing<T> {
    const storage: array<T>
    const capacity: u32
    var readIndex: u32
    var writeIndex: u32

    ghost predicate Valid()
      reads this
    {
      && 0 < capacity == storage.Length
      && Sub32(writeIndex, readIndex) <= capacity
    }

    ghost function Contents(): seq<T>
      requires Valid()
      reads this, storage
    {
      View(storage[..], capacity, readIndex, writeIndex)
    }

    constructor (storage: array<T>)
      requires 0 < storage.Length < U32
      ensures Valid() && this.storage == storage && Contents() == []
    {
      this.storage := storage;
      this.capacity := storage.Length;
      readIndex := 0;
      writeIndex := 0;
    }

    /**
     spsc_ring_push, for any capacity. The contents grow by the element; an element already stored survives exactly as
     far as its slot is not the one written, which is all of them if the capacity divides 2^32 or the window does not wrap.
     */
    method Push(elem: T) returns (ok: bool)
      requires Valid()
      modifies this`writeIndex, storage
      ensures Valid()
      ensures ok == (|old(Contents())| < capacity as int)
      ensures !ok ==> Contents() == old(Contents())
      ensures ok ==> |Contents()| == |old(Contents())| + 1 && Contents()[|old(Contents())|] == elem
      ensures ok ==> forall i :: 0 <= i < |old(Contents())| ==>
          Contents()[i] == if Slot(Add32(readIndex, i), capacity) == Slot(old(writeIndex), capacity) then elem
                           else old(Contents())[i]
      ensures ok && (U32 % capacity == 0 || readIndex <= old(writeIndex)) ==> Contents() == old(Contents()) + [elem]
    {
      var read := readIndex;
      var write := writeIndex;
      if Sub32(write, read) >= capacity {
        return false;
      }
      var slot := Slot(write, capacity);
      storage[slot] := elem;
      writeIndex := Add32(write, 1);
      ok := true;
      ViewAfterAnyPush(old(storage[..]), capacity, read, write, elem);
      if U32 % capacity == 0 || read <= write {
        ViewAfterPush(old(storage[..]), capacity, read, write, elem);
      }
      assert storage[..] == old(storage[..])[slot := elem];
    }

    method Pop() returns (out: Popped<T>)
      requires Valid()
      modifies this`readIndex
      ensures Valid()
      ensures match out
        case Nothing => old(Contents()) == [] && Contents() == []
        case Got(elem) => old(Contents()) == [elem] + Contents()
    {
      var read := readIndex;
      var write := writeIndex;
      if read == write {
        return Nothing;
      }
      var slot := Slot(read, capacity);
      out := Got(storage[slot]);
      readIndex := Add32(read, 1);
      ViewAfterPop(storage[..], capacity, read, write);
    }
  }

  datatype Popped<T> = Nothing | Got(elem: T)
}
