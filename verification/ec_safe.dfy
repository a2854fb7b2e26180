/**
 Safe outputs after a latched fault (backends/ethercat/ec_backend.c:408-432, 450-558, 560-643). The RT
 thread, the thread that calls start and stop, and a PLC thread free to write any byte of either
 output buffer and to move the indices at any time, one load, store, copied byte or frame per step.
 The image is the concatenation of the bound devices' out_size bytes in the I/O map.
 */
module SafeOutputs {
  import opened Schedules
  import opened Words

  type Image = seq<byte>

  datatype FrameKind = StartFrame | CyclicFrame | ExitFrame | StopFrame

  /** A process-data frame: who sent it, whether the fault was latched then, and its output bytes. */
  datatype Frame = Frame(kind: FrameKind, latched: bool, data: Image)

  /** The RT thread; RtZeroing is the zeroing on the first trip, the RtExit steps follow the loop. */
  datatype Rt =
    | RtNone
    | RtSpawned
    | RtLoopTest
    | RtLoadIndex
    | RtLoadLatch(index: nat)
    | RtCopying(index: nat, zero: bool, copied: nat)
    | RtSending(zero: bool)
    | RtJudging
    | RtZeroing(buffer: nat, done: nat)
    | RtExitZero(buffer: nat, done: nat)
    | RtExitCopy(done: nat)
    | RtExitSend
    | RtFinished

  /** The thread that calls ethercat_start and ethercat_stop. */
  datatype Control =
    | CIdle
    | CStartMap(done: nat)
    | CStartZero(buffer: nat, done: nat)
    | CStartSend
    | CStartAllow
    | CStartSpawn
    | CStopTest
    | CStopJoin
    | CStopZero(buffer: nat, done: nat)
    | CStopCopy(done: nat)
    | CStopSend

  datatype State = State(
    size: nat,
    buffers: seq<Image>,
    rtOut: nat,
    iomap: Image,
    faultLatched: bool,
    shouldRun: bool,
    isRunning: bool,
    rt: Rt,
    control: Control,
    frames: seq<Frame>
  )

  /**
   RtMove and ControlMove advance one thread by one step. Judging takes the verdict of the cycle as an
   input; start may fail to reach OP or to create its thread. StartClearLatch is its own action.
   */
  datatype Action =
    | RtMove
    | RtJudge(trip: bool)
    | CallStart
    | CallStop
    | ControlMove
    | StartGivesUp
    | StartClearLatch
    | SpawnFails
    | PlcWrite(buffer: nat, at: nat, value: byte)
    | PlcSwap(rtOut: nat)

  ghost predicate Shape(s: State) {
    && |s.buffers| == 2 && |s.buffers[0]| == |s.buffers[1]| == |s.iomap| == s.size && s.rtOut < 2
    && match s.rt
       case RtLoadLatch(i) => i < 2
       case RtCopying(i, _, k) => i < 2 && k <= s.size
       case _ => true
  }

  ghost function Send(s: State, kind: FrameKind): (t: State)
    ensures Shape(s) ==> Shape(t)
  {
    s.(frames := s.frames + [Frame(kind, s.faultLatched, s.iomap)])
  }

  /** Zero byte `done` of a buffer and of the I/O map, or go on to the next buffer, or to `next`. */
  ghost function ZeroByte(s: State, buffer: nat, done: nat): (t: State)
    requires Shape(s) && buffer < 2 && done < s.size
    ensures Shape(t) && t == s.(buffers := t.buffers, iomap := t.iomap)
  {
    s.(buffers := s.buffers[buffer := s.buffers[buffer][done := 0]], iomap := s.iomap[done := 0])
  }

  ghost function RtStep(s: State): (t: State)
    requires Shape(s)
    ensures Shape(t)
  {
    hide ZeroByte, Send;
    match s.rt
    case RtSpawned => s.(isRunning := true, rt := RtLoopTest)
    case RtLoopTest => s.(rt := if s.shouldRun then RtLoadIndex else RtExitZero(0, 0))
    case RtLoadIndex => s.(rt := RtLoadLatch(s.rtOut))
    case RtLoadLatch(i) => s.(rt := RtCopying(i, s.faultLatched, 0))
    case RtCopying(i, zero, k) =>
      if k < s.size then
        s.(iomap := s.iomap[k := if zero then 0 else s.buffers[i][k]], rt := RtCopying(i, zero, k + 1))
      else s.(rt := RtSending(zero))
    case RtSending(_) => Send(s, CyclicFrame).(rt := RtJudging)
    case RtZeroing(b, k) =>
      if b >= 2 then s.(rt := RtLoopTest)
      else if k < s.size then ZeroByte(s, b, k).(rt := RtZeroing(b, k + 1))
      else s.(rt := RtZeroing(b + 1, 0))
    case RtExitZero(b, k) =>
      if b >= 2 then s.(rt := RtExitCopy(0))
      else if k < s.size then ZeroByte(s, b, k).(rt := RtExitZero(b, k + 1))
      else s.(rt := RtExitZero(b + 1, 0))
    case RtExitCopy(k) =>
      if k < s.size then s.(iomap := s.iomap[k := 0], rt := RtExitCopy(k + 1)) else s.(rt := RtExitSend)
    case RtExitSend => Send(s, ExitFrame).(isRunning := false, rt := RtFinished)
    case _ => s
  }

  ghost function ControlStep(s: State): (t: State)
    requires Shape(s)
    ensures Shape(t)
  {
    hide ZeroByte, Send;
    match s.control
    case CStartMap(k) =>
      if k < s.size then s.(iomap := s.iomap[k := 0], control := CStartMap(k + 1))
      else s.(control := CStartZero(0, 0))
    case CStartZero(b, k) =>
      if b >= 2 then s.(control := CStartSend)
      else if k < s.size then ZeroByte(s, b, k).(control := CStartZero(b, k + 1))
      else s.(control := CStartZero(b + 1, 0))
    case CStartSend => Send(s, StartFrame)
    case CStartAllow => s.(shouldRun := true, isRunning := false, control := CStartSpawn)
    case CStartSpawn => s.(rt := RtSpawned, control := CIdle)
    case CStopTest => s.(control := if s.isRunning then CStopJoin else CStopZero(0, 0))
    case CStopJoin => if s.rt.RtFinished? then s.(control := CStopZero(0, 0)) else s
    case CStopZero(b, k) =>
      if b >= 2 then s.(control := CStopCopy(0))
      else if k < s.size then ZeroByte(s, b, k).(control := CStopZero(b, k + 1))
      else s.(control := CStopZero(b + 1, 0))
    case CStopCopy(k) =>
      if k < s.size then s.(iomap := s.iomap[k := 0], control := CStopCopy(k + 1)) else s.(control := CStopSend)
    case CStopSend => Send(s, StopFrame).(control := CIdle)
    case _ => s
  }

  ghost function Step(s: State, a: Action): (t: State)
    requires Shape(s)
    ensures Shape(t)
  {
    match a
    case RtMove => RtStep(s)
    case RtJudge(trip) =>
      if !s.rt.RtJudging? then s
      else if !trip then s.(rt := RtLoopTest)
      else if s.faultLatched then s.(rt := RtLoopTest)
      else s.(faultLatched := true, rt := RtZeroing(0, 0))
    case CallStart =>
      if s.control.CIdle? && (s.rt.RtNone? || s.rt.RtFinished?) then s.(control := CStartMap(0)) else s
    case CallStop =>
      if s.control.CIdle? then s.(shouldRun := false, control := CStopTest) else s
    case ControlMove => ControlStep(s)
    case StartGivesUp =>
      if s.control.CStartSend? then s.(control := CIdle) else s
    case StartClearLatch =>
      if s.control.CStartSend? then s.(faultLatched := false, control := CStartAllow) else s
    case SpawnFails =>
      if s.control.CStartSpawn? then s.(shouldRun := false, control := CIdle) else s
    case PlcWrite(b, i, v) =>
      if b < 2 && i < s.size then s.(buffers := s.buffers[b := s.buffers[b][i := v]]) else s
    case PlcSwap(i) =>
      if i < 2 then s.(rtOut := i) else s
  }

  ghost function Run(s: State, acts: seq<Action>): (t: State)
    requires Shape(s)
    ensures Shape(t)
    decreases |acts|
  {
    if acts == [] then s else Run(Step(s, acts[0]), acts[1..])
  }

  ghost predicate Initial(s: State) {
    && Shape(s) && s.rt.RtNone? && s.control.CIdle? && !s.shouldRun && !s.isRunning && s.frames == []
  }

  // ---------------------------------------------------------------- invariant

  ghost predicate AllZero(image: Image) {
    forall i :: 0 <= i < |image| ==> image[i] == 0
  }

  ghost predicate ZeroUpTo(image: Image, k: nat) {
    forall i :: 0 <= i < k && i < |image| ==> image[i] == 0
  }

  /** The RT thread is somewhere in the body of its loop, where it may copy PLC data. */
  ghost predicate InLoopBody(rt: Rt) {
    rt.RtLoadIndex? || rt.RtLoadLatch? || rt.RtCopying? || rt.RtSending? || rt.RtJudging? || rt.RtZeroing?
  }

  ghost predicate Starting(c: Control) {
    c.CStartMap? || c.CStartZero? || c.CStartSend? || c.CStartAllow? || c.CStartSpawn?
  }

  /** Stop is past the point where it made sure that the loop is over or will not be entered. */
  ghost predicate StopWriting(c: Control) {
    c.CStopZero? || c.CStopCopy? || c.CStopSend?
  }

  ghost predicate RtOk(s: State) {
    && (InLoopBody(s.rt) || s.rt.RtLoopTest? ==> s.isRunning)
    && match s.rt
       case RtCopying(_, zero, k) => (s.faultLatched ==> zero) && (zero ==> ZeroUpTo(s.iomap, k))
       case RtSending(zero) => (s.faultLatched ==> zero) && (zero ==> AllZero(s.iomap))
       case RtExitCopy(k) => ZeroUpTo(s.iomap, k)
       case RtExitSend => AllZero(s.iomap)
       case _ => true
  }

  ghost predicate ControlOk(s: State) {
    && (Starting(s.control) ==> s.rt.RtNone? || s.rt.RtFinished?)
    && (s.control.CStopTest? || s.control.CStopJoin? || StopWriting(s.control) ==> !s.shouldRun)
    && (StopWriting(s.control) ==> !InLoopBody(s.rt))
    && match s.control
       case CStartMap(k) => ZeroUpTo(s.iomap, k)
       case CStartZero(_, _) => AllZero(s.iomap)
       case CStartSend => AllZero(s.iomap)
       case CStopCopy(k) => ZeroUpTo(s.iomap, k)
       case CStopSend => AllZero(s.iomap)
       case _ => true
  }

  /** Frames sent under a latched fault, and all frames of start, thread exit and stop, carry zeros. */
  ghost predicate FramesOk(frames: seq<Frame>) {
    forall i :: 0 <= i < |frames| ==> frames[i].latched || !frames[i].kind.CyclicFrame? ==> AllZero(frames[i].data)
  }

  ghost predicate Invariant(s: State) {
    Shape(s) && RtOk(s) && ControlOk(s) && FramesOk(s.frames)
  }

  /** Writing a zero keeps zeros, and extends a zero prefix that it abuts. */
  lemma ZeroWrites(image: Image, i: nat, k: nat)
    requires i < |image|
    ensures AllZero(image) ==> AllZero(image[i := 0])
    ensures ZeroUpTo(image, k) ==> ZeroUpTo(image[i := 0], k)
    ensures ZeroUpTo(image, i) ==> ZeroUpTo(image[i := 0], i + 1)
  {
  }

  lemma ZeroPrefixes(image: Image)
    ensures ZeroUpTo(image, 0)
    ensures ZeroUpTo(image, |image|) <==> AllZero(image)
    ensures AllZero(image) ==> forall k :: 0 <= k ==> ZeroUpTo(image, k)
  {
  }

  lemma SendKeepsFramesOk(s: State, kind: FrameKind)
    requires FramesOk(s.frames) && (s.faultLatched || !kind.CyclicFrame? ==> AllZero(s.iomap))
    ensures FramesOk(Send(s, kind).frames)
  {
  }

  lemma ZeroByteMeans(s: State, b: nat, k: nat)
    requires Shape(s) && b < 2 && k < s.size
    ensures ZeroByte(s, b, k) == s.(buffers := ZeroByte(s, b, k).buffers, iomap := s.iomap[k := 0])
  {
  }

  /** What the RT thread may hold about the I/O map stays true when one byte of it is zeroed. */
  lemma ZeroByteKeepsRt(s: State, b: nat, k: nat)
    requires Shape(s) && RtOk(s) && b < 2 && k < s.size
    ensures RtOk(ZeroByte(s, b, k))
  {
    ZeroByteMeans(s, b, k);
    hide ZeroByte, AllZero, ZeroUpTo, Shape;
    match s.rt
    case RtCopying(_, _, n) => ZeroWrites(s.iomap, k, n);
    case RtExitCopy(n) => ZeroWrites(s.iomap, k, n);
    case _ => ZeroWrites(s.iomap, k, 0);
  }

  lemma ZeroByteKeepsControl(s: State, b: nat, k: nat)
    requires Shape(s) && ControlOk(s) && b < 2 && k < s.size
    ensures ControlOk(ZeroByte(s, b, k))
  {
    ZeroByteMeans(s, b, k);
    hide ZeroByte, AllZero, ZeroUpTo, Shape;
    match s.control
    case CStartMap(n) => ZeroWrites(s.iomap, k, n);
    case CStopCopy(n) => ZeroWrites(s.iomap, k, n);
    case _ => ZeroWrites(s.iomap, k, 0);
  }

  lemma ZeroByteKeepsMap(s: State, b: nat, k: nat)
    requires Invariant(s) && b < 2 && k < s.size
    ensures var t := ZeroByte(s, b, k); RtOk(t) && ControlOk(t) && FramesOk(t.frames)
  {
    ZeroByteKeepsRt(s, b, k);
    ZeroByteKeepsControl(s, b, k);
    ZeroByteMeans(s, b, k);
    hide ZeroByte, RtOk, ControlOk, FramesOk;
  }

  lemma RtCopyKeepsInvariant(s: State)
    requires Invariant(s) && (s.rt.RtCopying? || s.rt.RtSending?)
    ensures Invariant(RtStep(s))
  {
    ZeroPrefixes(s.iomap);
    if s.rt.RtCopying? && s.rt.copied < s.size {
      ZeroWrites(s.iomap, s.rt.copied, 0);
    }
    if s.rt.RtSending? {
      SendKeepsFramesOk(s, CyclicFrame);
    }
    hide AllZero, ZeroUpTo, FramesOk;
  }

  lemma RtExitKeepsInvariant(s: State)
    requires Invariant(s) && (s.rt.RtExitCopy? || s.rt.RtExitSend?)
    ensures Invariant(RtStep(s))
  {
    ZeroPrefixes(s.iomap);
    if s.rt.RtExitCopy? && s.rt.done < s.size {
      ZeroWrites(s.iomap, s.rt.done, 0);
      if s.control.CStopCopy? {
        ZeroWrites(s.iomap, s.rt.done, s.control.done);
      }
    }
    if s.rt.RtExitSend? {
      SendKeepsFramesOk(s, ExitFrame);
    }
    hide AllZero, ZeroUpTo, FramesOk;
  }

  lemma RtZeroingKeepsInvariant(s: State)
    requires Invariant(s) && (s.rt.RtZeroing? || s.rt.RtExitZero?)
    ensures Invariant(RtStep(s))
  {
    ZeroPrefixes(s.iomap);
    if s.rt.buffer < 2 && s.rt.done < s.size {
      ZeroByteKeepsMap(s, s.rt.buffer, s.rt.done);
    }
    hide AllZero, ZeroUpTo, FramesOk;
  }

  lemma RtKeepsInvariant(s: State)
    requires Invariant(s)
    ensures Invariant(RtStep(s))
  {
    ZeroPrefixes(s.iomap);
    match s.rt
    case RtCopying(_, _, _) => RtCopyKeepsInvariant(s);
    case RtSending(_) => RtCopyKeepsInvariant(s);
    case RtExitCopy(_) => RtExitKeepsInvariant(s);
    case RtExitSend => RtExitKeepsInvariant(s);
    case RtZeroing(_, _) => RtZeroingKeepsInvariant(s);
    case RtExitZero(_, _) => RtZeroingKeepsInvariant(s);
    case _ =>
      hide AllZero, ZeroUpTo, FramesOk;
  }

  lemma ControlZeroKeepsInvariant(s: State)
    requires Invariant(s) && (s.control.CStartZero? || s.control.CStopZero?)
    ensures Invariant(ControlStep(s))
  {
    ZeroPrefixes(s.iomap);
    if s.control.buffer < 2 && s.control.done < s.size {
      ZeroByteKeepsMap(s, s.control.buffer, s.control.done);
    }
    hide AllZero, ZeroUpTo, FramesOk;
  }

  lemma ControlMapKeepsInvariant(s: State)
    requires Invariant(s) && (s.control.CStartMap? || s.control.CStopCopy?)
    ensures Invariant(ControlStep(s))
  {
    ZeroPrefixes(s.iomap);
    if s.control.done < s.size {
      ZeroWrites(s.iomap, s.control.done, if s.rt.RtExitCopy? then s.rt.done else 0);
    }
    hide AllZero, ZeroUpTo, FramesOk;
  }

  lemma ControlSendKeepsInvariant(s: State)
    requires Invariant(s) && (s.control.CStartSend? || s.control.CStopSend?)
    ensures Invariant(ControlStep(s))
  {
    SendKeepsFramesOk(s, if s.control.CStartSend? then StartFrame else StopFrame);
    hide AllZero, ZeroUpTo, FramesOk;
  }

  lemma ControlKeepsInvariant(s: State)
    requires Invariant(s)
    ensures Invariant(ControlStep(s))
  {
    match s.control
    case CStartMap(_) => ControlMapKeepsInvariant(s);
    case CStopCopy(_) => ControlMapKeepsInvariant(s);
    case CStartZero(_, _) => ControlZeroKeepsInvariant(s);
    case CStopZero(_, _) => ControlZeroKeepsInvariant(s);
    case CStartSend => ControlSendKeepsInvariant(s);
    case CStopSend => ControlSendKeepsInvariant(s);
    case _ =>
      ZeroPrefixes(s.iomap);
      hide AllZero, ZeroUpTo, FramesOk;
  }

  lemma StepKeepsInvariant(s: State, a: Action)
    requires Invariant(s)
    ensures Invariant(Step(s, a))
  {
    match a
    case RtMove => RtKeepsInvariant(s);
    case ControlMove => ControlKeepsInvariant(s);
    case _ =>
      ZeroPrefixes(s.iomap);
      hide AllZero, ZeroUpTo, FramesOk;
  }

  lemma {:induction false} RunKeepsInvariant(s: State, acts: seq<Action>)
    requires Invariant(s)
    ensures Invariant(Run(s, acts))
    decreases |acts|
  {
    hide Step;
    if acts != [] {
      StepKeepsInvariant(s, acts[0]);
      RunKeepsInvariant(Step(s, acts[0]), acts[1..]);
    }
  }

  // ---------------------------------------------------------------- main results

  ghost predicate NoRestart(acts: seq<Action>) {
    forall i :: 0 <= i < |acts| ==> !acts[i].StartClearLatch?
  }

  /** Only ethercat_start lowers the latch, and the frames sent while it is up are marked so. */
  lemma {:induction false} LatchStaysUntilRestart(s: State, acts: seq<Action>)
    requires Shape(s) && s.faultLatched && NoRestart(acts)
    ensures var t := Run(s, acts);
      && t.faultLatched && s.frames <= t.frames
      && (forall i :: |s.frames| <= i < |t.frames| ==> t.frames[i].latched)
    decreases |acts|
  {
    if acts != [] {
      LatchedStep(s, acts[0]);
      hide Step;
      LatchStaysUntilRestart(Step(s, acts[0]), acts[1..]);
    }
  }

  lemma LatchedStep(s: State, a: Action)
    requires Shape(s) && s.faultLatched && !a.StartClearLatch?
    ensures var t := Step(s, a);
      && t.faultLatched && s.frames <= t.frames
      && (forall i :: |s.frames| <= i < |t.frames| ==> t.frames[i].latched)
  {
    hide RtStep, ControlStep, Shape;
    if a.RtMove? {
      LatchedRtStep(s);
    } else if a.ControlMove? {
      LatchedControlStep(s);
    }
  }

  lemma LatchedRtStep(s: State)
    requires Shape(s) && s.faultLatched
    ensures var t := RtStep(s);
      && t.faultLatched && s.frames <= t.frames && |t.frames| <= |s.frames| + 1
      && (s.frames < t.frames ==> t.frames[|s.frames|].latched)
  {
    if s.rt.RtSending? {
      assert RtStep(s).frames == s.frames + [Frame(CyclicFrame, true, s.iomap)];
    } else if s.rt.RtExitSend? {
      assert RtStep(s).frames == s.frames + [Frame(ExitFrame, true, s.iomap)];
    }
  }

  lemma LatchedControlStep(s: State)
    requires Shape(s) && s.faultLatched
    ensures var t := ControlStep(s);
      && t.faultLatched && s.frames <= t.frames && |t.frames| <= |s.frames| + 1
      && (s.frames < t.frames ==> t.frames[|s.frames|].latched)
  {
    if s.control.CStartSend? {
      assert ControlStep(s).frames == s.frames + [Frame(StartFrame, true, s.iomap)];
    } else if s.control.CStopSend? {
      assert ControlStep(s).frames == s.frames + [Frame(StopFrame, true, s.iomap)];
    }
  }

  /**
   Once the fault is latched, every later process-data frame carries zeros in the bound devices' output
   bytes, whatever the PLC thread writes or swaps, through thread exit and stop, until start clears the latch.
   */
  lemma SafeOutputsOnceLatched(s: State, before: seq<Action>, after: seq<Action>)
    requires Initial(s) && Run(s, before).faultLatched && NoRestart(after)
    ensures var t, u := Run(s, before), Run(Run(s, before), after);
      && u.faultLatched && t.frames <= u.frames
      && (forall i :: |t.frames| <= i < |u.frames| ==> AllZero(u.frames[i].data))
  {
    var t := Run(s, before);
    RunKeepsInvariant(s, before);
    RunKeepsInvariant(t, after);
    LatchStaysUntilRestart(t, after);
  }

  /** Frames of start, thread exit and stop are zero in every run, latched or not. */
  lemma EdgeFramesAreZero(s: State, acts: seq<Action>, i: nat)
    requires Initial(s) && i < |Run(s, acts).frames| && !Run(s, acts).frames[i].kind.CyclicFrame?
    ensures AllZero(Run(s, acts).frames[i].data)
  {
    RunKeepsInvariant(s, acts);
  }

  // ---------------------------------------------------------------- one thread alone

  ghost function MovesOn(s: State, n: nat): State
    requires Shape(s)
  {
    Run(s, Repeat(RtMove, n))
  }

  lemma MoveFirst(s: State, n: nat)
    requires Shape(s) && n > 0
    ensures MovesOn(s, n) == MovesOn(RtStep(s), n - 1)
  {
    hide RtStep;
    RepeatFront(RtMove, n);
  }

  /** What the copy of a cycle puts at byte `i`: zero under a latched fault, else the byte of the buffer. */
  ghost function Copied(s: State, index: nat, zero: bool): Image
    requires Shape(s) && index < 2
  {
    if zero then seq(s.size, _ => 0) else s.buffers[index]
  }

  /** One step of the copy: it extends what is copied by a byte, and the last step leaves it whole. */
  lemma CopyStep(s: State)
    requires Shape(s) && s.rt.RtCopying?
    requires s.iomap[..s.rt.copied] == Copied(s, s.rt.index, s.rt.zero)[..s.rt.copied]
    ensures var r, image, t := s.rt, Copied(s, s.rt.index, s.rt.zero), RtStep(s);
      if r.copied == s.size then t == s.(iomap := image, rt := RtSending(r.zero))
      else
        && t == s.(iomap := t.iomap, rt := RtCopying(r.index, r.zero, r.copied + 1))
        && Copied(t, r.index, r.zero) == image && t.iomap[..r.copied + 1] == image[..r.copied + 1]
  {
    var r, image := s.rt, Copied(s, s.rt.index, s.rt.zero);
    if r.copied == s.size {
      assert s.iomap == s.iomap[..r.copied] && image == image[..r.copied];
    }
  }

  lemma {:induction false} CopyAlone(s: State)
    requires Shape(s) && s.rt.RtCopying?
    requires s.iomap[..s.rt.copied] == Copied(s, s.rt.index, s.rt.zero)[..s.rt.copied]
    ensures MovesOn(s, s.size - s.rt.copied + 1)
         == s.(iomap := Copied(s, s.rt.index, s.rt.zero), rt := RtSending(s.rt.zero))
    decreases s.size - s.rt.copied
  {
    hide RtStep, Copied, MovesOn;
    CopyStep(s);
    MoveFirst(s, s.size - s.rt.copied + 1);
    if s.rt.copied == s.size {
      NoMoves(RtStep(s));
    } else {
      CopyAlone(RtStep(s));
    }
  }

  lemma NoMoves(s: State)
    requires Shape(s)
    ensures MovesOn(s, 0) == s
  {
  }

  /**
   One RT cycle that nothing disturbs sends one frame: the whole buffer that the published index names, or zeros under a
   latched fault; then it judges.
   */
  lemma CycleAlone(s: State)
    requires Shape(s) && s.rt.RtLoadIndex?
    ensures var image := if s.faultLatched then seq(s.size, _ => 0) else s.buffers[s.rtOut];
      MovesOn(s, s.size + 4)
      == s.(iomap := image, rt := RtJudging, frames := s.frames + [Frame(CyclicFrame, s.faultLatched, image)])
  {
    var s1, s2 := s.(rt := RtLoadLatch(s.rtOut)), s.(rt := RtCopying(s.rtOut, s.faultLatched, 0));
    MoveFirst(s, s.size + 4);
    MoveFirst(s1, s.size + 3);
    assert RtStep(s) == s1 && RtStep(s1) == s2;
    CopyAlone(s2);
    var s3 := MovesOn(s2, s.size + 1);
    MovesOnOnce(s2, s.size + 1);
    assert RtStep(s3).frames == s.frames + [Frame(CyclicFrame, s.faultLatched, s3.iomap)];
  }

  lemma {:induction false} MovesOnOnce(s: State, n: nat)
    requires Shape(s)
    ensures MovesOn(s, n + 1) == RtStep(MovesOn(s, n))
    decreases n
  {
    MoveFirst(s, n + 1);
    hide RtStep;
    if n > 0 {
      MoveFirst(s, n);
      MovesOnOnce(RtStep(s), n - 1);
      hide MovesOn;
    } else {
      NoMoves(s);
      NoMoves(RtStep(s));
    }
  }

  /** Buffer `b` and the I/O map are zero below `k`, and the buffers before it are zero. */
  ghost predicate ZeroedBelow(s: State, b: nat, k: nat)
    requires Shape(s)
  {
    && (b == 0 ==> ZeroUpTo(s.buffers[0], k) && ZeroUpTo(s.iomap, k))
    && (b >= 1 ==> AllZero(s.buffers[0]) && AllZero(s.iomap))
    && (b == 1 ==> ZeroUpTo(s.buffers[1], k))
    && (b >= 2 ==> AllZero(s.buffers[1]))
  }

  lemma ZeroingStep(s: State, b: nat, k: nat)
    requires Shape(s) && s.rt == RtZeroing(b, k) && k <= s.size && ZeroedBelow(s, b, k)
    ensures var t := RtStep(s);
      && t == s.(buffers := t.buffers, iomap := t.iomap, rt := t.rt)
      && if b >= 2 then t.rt.RtLoopTest? && ZeroedBelow(t, 2, 0)
         else if k < s.size then t.rt == RtZeroing(b, k + 1) && ZeroedBelow(t, b, k + 1)
         else t.rt == RtZeroing(b + 1, 0) && ZeroedBelow(t, b + 1, 0)
  {
  }

  lemma {:induction false} ZeroingAlone(s: State, b: nat, k: nat) returns (n: nat)
    requires Shape(s) && s.rt == RtZeroing(b, k) && k <= s.size && b <= 2 && ZeroedBelow(s, b, k)
    ensures var t := MovesOn(s, n);
      && t == s.(buffers := t.buffers, iomap := t.iomap, rt := RtLoopTest) && Shape(t) && ZeroedBelow(t, 2, 0)
    decreases 2 - b, s.size - k
  {
    ZeroingStep(s, b, k);
    var t := RtStep(s);
    hide RtStep, ZeroedBelow;
    if b >= 2 {
      n := 1;
      MoveFirst(s, 1);
      NoMoves(t);
    } else {
      if k < s.size {
        n := ZeroingAlone(t, b, k + 1);
      } else {
        n := ZeroingAlone(t, b + 1, 0);
      }
      n := n + 1;
      MoveFirst(s, n);
    }
  }

  /** The first trip: the fault is latched, and both output buffers and the I/O map are zero before the next cycle. */
  lemma TripZeroesEverything(s: State) returns (n: nat)
    requires Shape(s) && s.rt.RtJudging? && !s.faultLatched
    ensures var t := MovesOn(Step(s, RtJudge(true)), n);
      && t.faultLatched && t.rt.RtLoopTest? && t.frames == s.frames
      && |t.buffers| == 2 && AllZero(t.buffers[0]) && AllZero(t.buffers[1]) && AllZero(t.iomap)
  {
    var u := Step(s, RtJudge(true));
    assert u == s.(faultLatched := true, rt := RtZeroing(0, 0)) && ZeroedBelow(u, 0, 0);
    n := ZeroingAlone(u, 0, 0);
  }

  // ---------------------------------------------------------------- the helpers on one thread

  /** One bound device's buffers, and its window in the I/O map; each may be missing. */
  class DeviceOutputs {
    const outSize: nat
    const out0: array?<byte>
    const out1: array?<byte>
    const soemOutputs: array?<byte>

    ghost predicate Valid() {
      && (out0 != null ==> out0.Length == outSize && out0 != out1 && out0 != soemOutputs)
      && (out1 != null ==> out1.Length == outSize && out1 != soemOutputs)
      && (soemOutputs != null ==> soemOutputs.Length == outSize)
    }

    constructor (size: nat, buffered: bool, mapped: bool)
      ensures Valid() && outSize == size
      ensures buffered <==> out0 != null && out1 != null
      ensures mapped <==> soemOutputs != null
    {
      outSize := size;
      out0, out1, soemOutputs := null, null, null;
      if buffered {
        out0 := new byte[size](_ => 0);
        out1 := new byte[size](_ => 0);
      }
      if mapped {
        soemOutputs := new byte[size](_ => 0);
      }
    }

    function Buffer(index: nat): array?<byte> {
      if index == 0 then out0 else out1
    }

    /** ethercat_copy_out_to_iomap for one device: without a window nothing happens, without a buffer it sends zeros. */
    method CopyOutToIomap(index: nat, zeroOutputs: bool)
      requires Valid() && index < 2
      modifies soemOutputs
      ensures soemOutputs != null && (zeroOutputs || Buffer(index) == null) ==> AllZero(soemOutputs[..])
      ensures soemOutputs != null && !zeroOutputs && Buffer(index) != null ==> soemOutputs[..] == Buffer(index)[..]
    {
      if soemOutputs != null && outSize > 0 {
        if zeroOutputs || Buffer(index) == null {
          ZeroFill(soemOutputs);
        } else {
          var source := Buffer(index);
          var i := 0;
          while i < outSize
            invariant 0 <= i <= outSize
            invariant soemOutputs[..i] == source[..i]
          {
            soemOutputs[i] := source[i];
            i := i + 1;
          }
        }
      }
    }

    /** ethercat_zero_output_buffers for one device: whatever exists of it holds zeros afterwards. */
    method ZeroOutputBuffers()
      requires Valid()
      modifies out0, out1, soemOutputs
      ensures out0 != null ==> AllZero(out0[..])
      ensures out1 != null ==> AllZero(out1[..])
      ensures soemOutputs != null ==> AllZero(soemOutputs[..])
    {
      if outSize == 0 {
        return;
      }
      if out0 != null {
        ZeroFill(out0);
      }
      if out1 != null {
        ZeroFill(out1);
      }
      if soemOutputs != null {
        ZeroFill(soemOutputs);
      }
    }
  }

  /** memset(a, 0, sizeof a) */
  method ZeroFill(a: array<byte>)
    modifies a
    ensures AllZero(a[..])
  {
    var i := 0;
    while i < a.Length
      invariant 0 <= i <= a.Length
      invariant forall k :: 0 <= k < i ==> a[k] == 0
    {
      a[i] := 0;
      i := i + 1;
    }
  }
}
