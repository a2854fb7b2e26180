/**
 Safe outputs when ethercat_start is called while an earlier RT thread is still alive, which the code does not prevent
 (backends/ethercat/ec_backend.c:434-643): any number of RT threads over one driver. A latched fault then no longer implies
 zero outputs by itself; `Safe` is the exact condition on the state under which it does, and starting only when no RT
 thread is alive the exact condition on the callers.
 */
module SafeOutputThreads {
  import opened SafeOutputs
  import opened Words

  /** The shared state, whose own `rt` is not used, and every RT thread spawned so far. */
  datatype Many = Many(shared: State, rts: seq<Rt>)

  /** A step of thread `t`, or of the PLC or control thread. */
  datatype Move = Thread(t: nat, a: Action) | Other(a: Action)

  predicate OfThread(a: Action) {
    a.RtMove? || a.RtJudge?
  }

  ghost predicate RtShape(rt: Rt, size: nat) {
    match rt
    case RtLoadLatch(i) => i < 2
    case RtCopying(i, _, k) => i < 2 && k <= size
    case _ => true
  }

  ghost predicate Fine(m: Many) {
    Shape(m.shared) && m.shared.rt.RtNone? && forall t :: 0 <= t < |m.rts| ==> RtShape(m.rts[t], m.shared.size)
  }

  /** The machine of module SafeOutputs with this RT thread. */
  ghost function With(m: Many, rt: Rt): (s: State)
    requires Fine(m) && RtShape(rt, m.shared.size)
    ensures Shape(s)
  {
    m.shared.(rt := rt)
  }

  /** The thread that stop joins: the handle is overwritten by every start. */
  ghost function Latest(m: Many): Rt {
    if m.rts == [] then RtNone else m.rts[|m.rts| - 1]
  }

  lemma StepKeepsSize(s: State, a: Action)
    requires Shape(s)
    ensures Step(s, a).size == s.size && RtShape(Step(s, a).rt, s.size)
  {
    SizeStays(s);
    hide RtStep, ControlStep;
  }

  lemma SizeStays(s: State)
    requires Shape(s)
    ensures RtStep(s).size == s.size && ControlStep(s).size == s.size
  {
    hide ZeroByte, Shape;
  }

  /** One step; CallStart is possible whenever the control thread is idle. */
  ghost function MoveStep(m: Many, move: Move): (n: Many)
    requires Fine(m)
    ensures Fine(n) && n.shared.size == m.shared.size
  {
    match move
    case Thread(t, a) =>
      if t < |m.rts| && OfThread(a) then
        var s := With(m, m.rts[t]);
        StepKeepsSize(s, a);
        var u := Step(s, a);
        hide Step;
        Many(u.(rt := RtNone), m.rts[t := u.rt])
      else m
    case Other(a) =>
      if OfThread(a) then m
      else if a.CallStart? then
        if m.shared.control.CIdle? then Many(m.shared.(control := CStartMap(0)), m.rts) else m
      else
        var s := With(m, Latest(m));
        StepKeepsSize(s, a);
        var u := Step(s, a);
        hide Step;
        Many(u.(rt := RtNone), if a.ControlMove? && m.shared.control.CStartSpawn? then m.rts + [RtSpawned] else m.rts)
  }

  ghost function MoveRun(m: Many, moves: seq<Move>): (n: Many)
    requires Fine(m)
    ensures Fine(n) && n.shared.size == m.shared.size
    decreases |moves|
  {
    if moves == [] then m else MoveRun(MoveStep(m, moves[0]), moves[1..])
  }

  ghost predicate NoClear(moves: seq<Move>) {
    forall i :: 0 <= i < |moves| ==> moves[i] != Other(StartClearLatch)
  }

  /** All frames from the `n`-th on carry zeros. */
  ghost predicate ZeroFrom(frames: seq<Frame>, n: nat) {
    forall i :: n <= i < |frames| ==> AllZero(frames[i].data)
  }

  // ---------------------------------------------------------------- the safe states

  /** An RT thread will send only zeros if nobody writes anything but zeros into the I/O map. */
  ghost predicate SafeRt(s: State, rt: Rt) {
    match rt
    case RtCopying(_, zero, k) => (zero || k >= s.size) && ZeroUpTo(s.iomap, k)
    case RtSending(_) => AllZero(s.iomap)
    case RtExitCopy(k) => ZeroUpTo(s.iomap, k)
    case RtExitSend => AllZero(s.iomap)
    case _ => true
  }

  ghost predicate SafeControl(s: State) {
    match s.control
    case CStartZero(b, k) => (b == 1 ==> ZeroUpTo(s.iomap, k)) && (b >= 2 ==> AllZero(s.iomap))
    case CStartSend => AllZero(s.iomap)
    case CStopCopy(k) => ZeroUpTo(s.iomap, k)
    case CStopSend => AllZero(s.iomap)
    case _ => true
  }

  /** The fault is latched, and no thread is in the middle of a frame begun before that, or of one already spoilt by such. */
  ghost predicate Safe(m: Many) {
    && Fine(m) && m.shared.faultLatched && SafeControl(m.shared)
    && forall t :: 0 <= t < |m.rts| ==> SafeRt(m.shared, m.rts[t])
  }

  /** Every byte stayed or became zero. */
  ghost predicate Zeroed(a: Image, b: Image) {
    |a| == |b| && forall i :: 0 <= i < |a| ==> b[i] == a[i] || b[i] == 0
  }

  lemma ZeroedKeepsRt(s: State, u: State, rt: Rt)
    requires Zeroed(s.iomap, u.iomap) && u.size == s.size && SafeRt(s, rt)
    ensures SafeRt(u, rt)
  {
  }

  lemma ZeroedKeepsControl(s: State, u: State)
    requires Zeroed(s.iomap, u.iomap) && u.control == s.control && SafeControl(s)
    ensures SafeControl(u)
  {
  }

  /** What a safe step does to the shared state. */
  ghost predicate SafeEffect(s: State, u: State) {
    u.size == s.size && u.faultLatched && Zeroed(s.iomap, u.iomap) && s.frames <= u.frames && ZeroFrom(u.frames, |s.frames|)
  }

  lemma NothingWritten(s: State)
    ensures Zeroed(s.iomap, s.iomap) && s.frames <= s.frames && ZeroFrom(s.frames, |s.frames|)
    ensures ZeroUpTo(s.iomap, 0) && (ZeroUpTo(s.iomap, |s.iomap|) <==> AllZero(s.iomap))
  {
  }

  lemma PastEnd(image: Image, k: nat)
    ensures k >= |image| && ZeroUpTo(image, k) ==> AllZero(image)
  {
  }

  lemma ZeroWritten(image: Image, k: nat)
    requires k < |image|
    ensures Zeroed(image, image[k := 0]) && (ZeroUpTo(image, k) ==> ZeroUpTo(image[k := 0], k + 1))
  {
  }

  lemma FrameSent(s: State, kind: FrameKind)
    requires AllZero(s.iomap)
    ensures s.frames <= Send(s, kind).frames && ZeroFrom(Send(s, kind).frames, |s.frames|)
  {
  }

  lemma SafeThreadCopies(s: State)
    requires Shape(s) && s.faultLatched && SafeRt(s, s.rt) && (s.rt.RtCopying? || s.rt.RtExitCopy?)
    ensures SafeEffect(s, RtStep(s)) && SafeRt(RtStep(s), RtStep(s).rt) && RtStep(s).control == s.control
  {
    NothingWritten(s);
    var k := if s.rt.RtCopying? then s.rt.copied else s.rt.done;
    PastEnd(s.iomap, k);
    if k < s.size {
      ZeroWritten(s.iomap, k);
    }
    hide AllZero, ZeroUpTo, Zeroed, ZeroFrom, ZeroByte, Send;
  }

  lemma SafeThreadZeroes(s: State)
    requires Shape(s) && s.faultLatched && (s.rt.RtZeroing? || s.rt.RtExitZero?)
    ensures SafeEffect(s, RtStep(s)) && SafeRt(RtStep(s), RtStep(s).rt) && RtStep(s).control == s.control
  {
    NothingWritten(s);
    var b, k := s.rt.buffer, s.rt.done;
    if b < 2 && k < s.size {
      ZeroWritten(s.iomap, k);
      ZeroByteMeans(s, b, k);
    }
    hide AllZero, ZeroUpTo, Zeroed, ZeroFrom, ZeroByte, Send, Shape;
  }

  lemma SafeThreadMoves(s: State)
    requires Shape(s) && s.faultLatched && SafeRt(s, s.rt)
    ensures SafeEffect(s, RtStep(s)) && SafeRt(RtStep(s), RtStep(s).rt) && RtStep(s).control == s.control
  {
    match s.rt
    case RtCopying(_, _, _) => SafeThreadCopies(s);
    case RtExitCopy(_) => SafeThreadCopies(s);
    case RtZeroing(_, _) => SafeThreadZeroes(s);
    case RtExitZero(_, _) => SafeThreadZeroes(s);
    case RtSending(_) =>
      NothingWritten(s);
      FrameSent(s, CyclicFrame);
    case RtExitSend =>
      NothingWritten(s);
      FrameSent(s, ExitFrame);
    case _ =>
      NothingWritten(s);
    hide AllZero, ZeroUpTo, Zeroed, ZeroFrom, ZeroByte, Shape;
  }

  lemma SafeThreadStep(s: State, a: Action)
    requires Shape(s) && s.faultLatched && SafeRt(s, s.rt) && OfThread(a)
    ensures SafeEffect(s, Step(s, a)) && SafeRt(Step(s, a), Step(s, a).rt) && Step(s, a).control == s.control
  {
    SafeThreadMoves(s);
    NothingWritten(s);
    hide AllZero, ZeroUpTo, Zeroed, ZeroFrom, RtStep, Shape;
  }

  lemma SafeControlZeroes(s: State)
    requires Shape(s) && s.faultLatched && SafeControl(s) && (s.control.CStartZero? || s.control.CStopZero?)
    ensures SafeEffect(s, ControlStep(s)) && SafeControl(ControlStep(s))
  {
    hide AllZero, ZeroUpTo, Zeroed, ZeroFrom, ZeroByte, Send, Shape;
    NothingWritten(s);
    var b, k := s.control.buffer, s.control.done;
    SizeOfMap(s);
    PastEnd(s.iomap, k);
    if b < 2 && k < s.size {
      ZeroWritten(s.iomap, k);
      ZeroByteMeans(s, b, k);
    }
  }

  lemma SafeControlCopies(s: State)
    requires Shape(s) && s.faultLatched && SafeControl(s) && (s.control.CStartMap? || s.control.CStopCopy?)
    ensures SafeEffect(s, ControlStep(s)) && SafeControl(ControlStep(s))
  {
    hide AllZero, ZeroUpTo, Zeroed, ZeroFrom, ZeroByte, Send, Shape;
    NothingWritten(s);
    SizeOfMap(s);
    PastEnd(s.iomap, s.control.done);
    if s.control.done < s.size {
      ZeroWritten(s.iomap, s.control.done);
    }
  }

  lemma SizeOfMap(s: State)
    requires Shape(s)
    ensures |s.iomap| == s.size
  {
  }

  lemma SafeControlSends(s: State)
    requires Shape(s) && s.faultLatched && SafeControl(s) && (s.control.CStartSend? || s.control.CStopSend?)
    ensures SafeEffect(s, ControlStep(s)) && SafeControl(ControlStep(s))
  {
    hide AllZero, ZeroUpTo, Zeroed, ZeroFrom, ZeroByte, Shape;
    NothingWritten(s);
    FrameSent(s, if s.control.CStartSend? then StartFrame else StopFrame);
  }

  lemma SafeControlMoves(s: State)
    requires Shape(s) && s.faultLatched && SafeControl(s)
    ensures SafeEffect(s, ControlStep(s)) && SafeControl(ControlStep(s))
  {
    hide AllZero, ZeroUpTo, Zeroed, ZeroFrom, ZeroByte, Send, Shape;
    match s.control
    case CStartMap(_) => SafeControlCopies(s);
    case CStopCopy(_) => SafeControlCopies(s);
    case CStartZero(_, _) => SafeControlZeroes(s);
    case CStopZero(_, _) => SafeControlZeroes(s);
    case CStartSend => SafeControlSends(s);
    case CStopSend => SafeControlSends(s);
    case _ => NothingWritten(s);
  }

  lemma SafeOtherStep(s: State, a: Action)
    requires Shape(s) && s.faultLatched && SafeControl(s) && !OfThread(a) && !a.CallStart? && !a.StartClearLatch?
    ensures SafeEffect(s, Step(s, a)) && SafeControl(Step(s, a))
  {
    SafeControlMoves(s);
    NothingWritten(s);
    hide AllZero, ZeroUpTo, Zeroed, ZeroFrom, ControlStep, Shape;
  }

  lemma MoveKeepsSafe(m: Many, move: Move)
    requires Safe(m) && move != Other(StartClearLatch)
    ensures Safe(MoveStep(m, move)) && SafeEffect(m.shared, MoveStep(m, move).shared)
  {
    var n := MoveStep(m, move);
    match move
    case Thread(t, a) =>
      if t < |m.rts| && OfThread(a) {
        SafeThreadStep(With(m, m.rts[t]), a);
        hide Step;
        ZeroedKeepsControl(m.shared, n.shared);
      }
    case Other(a) =>
      if !OfThread(a) && !a.CallStart? {
        SafeOtherStep(With(m, Latest(m)), a);
      }
      hide Step;
    hide Shape, SafeControl, ZeroFrom;
    forall t | 0 <= t < |n.rts| ensures SafeRt(n.shared, n.rts[t]) {
      if t < |m.rts| && n.rts[t] == m.rts[t] {
        ZeroedKeepsRt(m.shared, n.shared, m.rts[t]);
      }
    }
  }

  lemma {:induction false} SafeForever(m: Many, moves: seq<Move>)
    requires Safe(m) && NoClear(moves)
    ensures var n := MoveRun(m, moves);
      Safe(n) && m.shared.frames <= n.shared.frames && ZeroFrom(n.shared.frames, |m.shared.frames|)
    decreases |moves|
  {
    if moves != [] {
      MoveKeepsSafe(m, moves[0]);
      var n := MoveStep(m, moves[0]);
      hide Safe, MoveStep;
      SafeForever(n, moves[1..]);
      var u := MoveRun(n, moves[1..]);
      forall i | |m.shared.frames| <= i < |u.shared.frames| ensures AllZero(u.shared.frames[i].data) {
        if i < |n.shared.frames| {
          assert u.shared.frames[i] == n.shared.frames[i];
        }
      }
    }
  }

  // ---------------------------------------------------------------- every other state leaks

  /** Without clearing the latch these moves send a frame that is not zero. */
  ghost predicate Leaks(m: Many, moves: seq<Move>)
    requires Fine(m)
  {
    NoClear(moves) && !ZeroFrom(MoveRun(m, moves).shared.frames, |m.shared.frames|)
  }

  lemma LeaksLater(m: Many, move: Move, moves: seq<Move>)
    requires Fine(m) && move != Other(StartClearLatch) && Leaks(MoveStep(m, move), moves)
    requires |m.shared.frames| <= |MoveStep(m, move).shared.frames|
    ensures Leaks(m, [move] + moves)
  {
    hide MoveStep;
    var all := [move] + moves;
    assert all[1..] == moves;
    assert MoveRun(m, all) == MoveRun(MoveStep(m, move), moves);
  }

  lemma LeaksNow(m: Many, move: Move, j: nat)
    requires Fine(m) && move != Other(StartClearLatch) && j < m.shared.size && m.shared.iomap[j] != 0
    requires |MoveStep(m, move).shared.frames| == |m.shared.frames| + 1
    requires MoveStep(m, move).shared.frames[|m.shared.frames|].data == m.shared.iomap
    ensures Leaks(m, [move])
  {
    hide MoveStep;
    assert [move][1..] == [];
    assert MoveRun(m, [move]) == MoveRun(MoveStep(m, move), []);
    assert !AllZero(m.shared.iomap);
  }

  /** An RT thread about to send, with a nonzero byte `j` that it will not touch again. */
  ghost predicate Carries(m: Many, t: nat, j: nat)
    requires Fine(m)
  {
    && t < |m.rts| && j < m.shared.size && m.shared.iomap[j] != 0
    && match m.rts[t]
       case RtCopying(_, _, k) => j < k
       case RtSending(_) => true
       case RtExitCopy(k) => j < k
       case RtExitSend => true
       case _ => false
  }

  ghost function StepsLeft(rt: Rt, size: nat): nat {
    match rt
    case RtCopying(_, _, k) => if k < size then size - k + 1 else 1
    case RtExitCopy(k) => if k < size then size - k + 1 else 1
    case _ => 0
  }

  lemma CarriedOn(m: Many, t: nat, j: nat)
    requires Fine(m) && Carries(m, t, j) && (m.rts[t].RtCopying? || m.rts[t].RtExitCopy?)
    ensures var n := MoveStep(m, Thread(t, RtMove));
      Carries(n, t, j) && n.shared.frames == m.shared.frames
      && StepsLeft(n.rts[t], n.shared.size) < StepsLeft(m.rts[t], m.shared.size)
  {
    hide ZeroByte;
  }

  lemma {:induction false} CarrierLeaks(m: Many, t: nat, j: nat) returns (moves: seq<Move>)
    requires Fine(m) && Carries(m, t, j)
    ensures Leaks(m, moves)
    decreases StepsLeft(m.rts[t], m.shared.size)
  {
    var move := Thread(t, RtMove);
    if m.rts[t].RtCopying? || m.rts[t].RtExitCopy? {
      CarriedOn(m, t, j);
      hide MoveStep, Carries, StepsLeft;
      moves := CarrierLeaks(MoveStep(m, move), t, j);
      LeaksLater(m, move, moves);
      moves := [move] + moves;
    } else {
      CarrierSends(m, t, j);
      moves := [move];
      LeaksNow(m, move, j);
    }
  }

  lemma CarrierSends(m: Many, t: nat, j: nat)
    requires Fine(m) && Carries(m, t, j) && (m.rts[t].RtSending? || m.rts[t].RtExitSend?)
    ensures var n := MoveStep(m, Thread(t, RtMove));
      |n.shared.frames| == |m.shared.frames| + 1 && n.shared.frames[|m.shared.frames|].data == m.shared.iomap
  {
  }

  /** The control thread about to send, with a nonzero byte `j` that it will not touch again. */
  ghost predicate ControlCarries(m: Many, j: nat)
    requires Fine(m)
  {
    && j < m.shared.size && m.shared.iomap[j] != 0
    && match m.shared.control
       case CStartZero(b, k) => b >= 2 || (b == 1 && j < k)
       case CStartSend => true
       case CStopCopy(k) => j < k
       case CStopSend => true
       case _ => false
  }

  ghost function ControlLeft(c: Control, size: nat): nat {
    match c
    case CStartZero(b, k) => if b >= 2 then 1 else if k < size then size - k + 2 else 2
    case CStopCopy(k) => if k < size then size - k + 1 else 1
    case _ => 0
  }

  /** The control thread's steps are those of the machine with one RT thread. */
  lemma ControlMoved(m: Many)
    requires Fine(m)
    ensures var n, u := MoveStep(m, Other(ControlMove)), ControlStep(With(m, Latest(m)));
      && n.shared == u.(rt := RtNone)
      && n.rts == if m.shared.control.CStartSpawn? then m.rts + [RtSpawned] else m.rts
  {
    hide ControlStep, RtStep;
  }

  /** A step that zeroes byte `done` leaves byte `j` alone. */
  lemma ControlStepCarries(s: State, j: nat)
    requires Shape(s) && j < s.size && s.iomap[j] != 0
    requires match s.control
      case CStartZero(b, k) => b >= 2 || (b == 1 && j < k)
      case CStopCopy(k) => j < k
      case _ => false
    ensures var u := ControlStep(s);
      && u.size == s.size && u.iomap[j] != 0 && u.frames == s.frames
      && ControlLeft(u.control, u.size) < ControlLeft(s.control, s.size)
      && match u.control
         case CStartZero(b, k) => b >= 2 || (b == 1 && j < k)
         case CStartSend => true
         case CStopCopy(k) => j < k
         case CStopSend => true
         case _ => false
  {
    SizeOfMap(s);
    if s.control.CStartZero? && s.control.buffer < 2 && s.control.done < s.size {
      ZeroByteMeans(s, s.control.buffer, s.control.done);
    }
    hide ZeroByte, Shape;
  }

  lemma ControlCarriedOn(m: Many, j: nat)
    requires Fine(m) && ControlCarries(m, j) && (m.shared.control.CStartZero? || m.shared.control.CStopCopy?)
    ensures var n := MoveStep(m, Other(ControlMove));
      ControlCarries(n, j) && n.shared.frames == m.shared.frames
      && ControlLeft(n.shared.control, n.shared.size) < ControlLeft(m.shared.control, m.shared.size)
  {
    hide MoveStep, ControlStep, ControlLeft, Shape;
    ControlMoved(m);
    ControlStepCarries(With(m, Latest(m)), j);
  }

  lemma ControlSends(m: Many, j: nat)
    requires Fine(m) && ControlCarries(m, j) && (m.shared.control.CStartSend? || m.shared.control.CStopSend?)
    ensures var n := MoveStep(m, Other(ControlMove));
      |n.shared.frames| == |m.shared.frames| + 1 && n.shared.frames[|m.shared.frames|].data == m.shared.iomap
  {
  }

  lemma {:induction false} ControlLeaks(m: Many, j: nat) returns (moves: seq<Move>)
    requires Fine(m) && ControlCarries(m, j)
    ensures Leaks(m, moves)
    decreases ControlLeft(m.shared.control, m.shared.size)
  {
    var move := Other(ControlMove);
    if m.shared.control.CStartZero? || m.shared.control.CStopCopy? {
      ControlCarriedOn(m, j);
      hide MoveStep, ControlCarries, ControlLeft;
      moves := ControlLeaks(MoveStep(m, move), j);
      LeaksLater(m, move, moves);
      moves := [move] + moves;
    } else {
      ControlSends(m, j);
      moves := [move];
      LeaksNow(m, move, j);
    }
  }

  /** A thread still copying under an unlatched verdict takes over whatever the PLC has just written. */
  lemma UnlatchedCopyLeaks(m: Many, t: nat) returns (moves: seq<Move>)
    requires Fine(m) && t < |m.rts| && m.rts[t].RtCopying? && !m.rts[t].zero && m.rts[t].copied < m.shared.size
    ensures Leaks(m, moves)
  {
    var rt := m.rts[t];
    var write, copy := Other(PlcWrite(rt.index, rt.copied, 1)), Thread(t, RtMove);
    var m1 := MoveStep(m, write);
    PlcWrites(m, rt.index, rt.copied);
    CopiesByte(m1, t);
    var m2 := MoveStep(m1, copy);
    hide MoveStep;
    moves := CarrierLeaks(m2, t, rt.copied);
    LeaksLater(m1, copy, moves);
    LeaksLater(m, write, [copy] + moves);
    moves := [write] + ([copy] + moves);
  }

  lemma PlcWrites(m: Many, b: nat, i: nat)
    requires Fine(m) && b < 2 && i < m.shared.size
    ensures var n := MoveStep(m, Other(PlcWrite(b, i, 1)));
      n.rts == m.rts && n.shared.frames == m.shared.frames && n.shared.buffers[b][i] == 1
  {
  }

  lemma CopiesByte(m: Many, t: nat)
    requires Fine(m) && t < |m.rts| && m.rts[t].RtCopying? && !m.rts[t].zero && m.rts[t].copied < m.shared.size
    requires m.shared.buffers[m.rts[t].index][m.rts[t].copied] == 1
    ensures var n := MoveStep(m, Thread(t, RtMove));
      Carries(n, t, m.rts[t].copied) && n.shared.frames == m.shared.frames
  {
  }

  lemma NonzeroByte(image: Image, k: nat) returns (j: nat)
    requires !ZeroUpTo(image, k)
    ensures j < k && j < |image| && image[j] != 0
  {
    j :| j < k && j < |image| && image[j] != 0;
  }

  lemma UnsafeThreadLeaks(m: Many, t: nat) returns (moves: seq<Move>)
    requires Fine(m) && t < |m.rts| && !SafeRt(m.shared, m.rts[t])
    ensures Leaks(m, moves)
  {
    var image := m.shared.iomap;
    ZeroPrefixes(image);
    var k := if m.rts[t].RtCopying? then m.rts[t].copied else if m.rts[t].RtExitCopy? then m.rts[t].done else |image|;
    if ZeroUpTo(image, k) {
      moves := UnlatchedCopyLeaks(m, t);
    } else {
      var j := NonzeroByte(image, k);
      moves := CarrierLeaks(m, t, j);
    }
  }

  lemma UnsafeControlLeaks(m: Many) returns (moves: seq<Move>)
    requires Fine(m) && !SafeControl(m.shared)
    ensures Leaks(m, moves)
  {
    var image, c := m.shared.iomap, m.shared.control;
    ZeroPrefixes(image);
    var k := if c.CStartZero? && c.buffer == 1 then c.done else if c.CStopCopy? then c.done else |image|;
    var j := NonzeroByte(image, k);
    moves := ControlLeaks(m, j);
  }

  /**
   The exact condition, for any number of RT threads: under a latched fault every frame from now on, until start clears
   the latch, carries zeros whatever anybody does, iff the state is safe.
   */
  lemma ZeroOutputsIffSafe(m: Many)
    requires Fine(m) && m.shared.faultLatched
    ensures (forall moves :: NoClear(moves) ==> ZeroFrom(MoveRun(m, moves).shared.frames, |m.shared.frames|)) <==> Safe(m)
  {
    if Safe(m) {
      forall moves | NoClear(moves) ensures ZeroFrom(MoveRun(m, moves).shared.frames, |m.shared.frames|) {
        SafeForever(m, moves);
      }
    } else {
      var moves;
      if t: nat :| t < |m.rts| && !SafeRt(m.shared, m.rts[t]) {
        moves := UnsafeThreadLeaks(m, t);
      } else {
        moves := UnsafeControlLeaks(m);
      }
      assert Leaks(m, moves);
    }
  }

  // ---------------------------------------------------------------- one RT thread at a time

  /** How many RT threads are alive; a spawned one is, even if it has not run yet. */
  ghost function Alive(rts: seq<Rt>): (n: nat)
    ensures n <= |rts|
  {
    if rts == [] then 0 else Alive(rts[1..]) + if rts[0].RtFinished? then 0 else 1
  }

  lemma {:induction false} NobodyAlive(rts: seq<Rt>)
    requires Alive(rts) == 0
    ensures forall t :: 0 <= t < |rts| ==> rts[t].RtFinished?
  {
    if rts != [] {
      NobodyAlive(rts[1..]);
      forall t | 0 < t < |rts| ensures rts[t].RtFinished? {
        assert rts[t] == rts[1..][t - 1];
      }
    }
  }

  ghost predicate BeginsStart(m: Many, move: Move) {
    move == Other(CallStart) && m.shared.control.CIdle?
  }

  /** Along these moves start is only ever called with at most `k` RT threads alive. */
  ghost predicate StartsBeside(m: Many, moves: seq<Move>, k: nat)
    requires Fine(m)
    decreases |moves|
  {
    moves == [] || ((BeginsStart(m, moves[0]) ==> Alive(m.rts) <= k) && StartsBeside(MoveStep(m, moves[0]), moves[1..], k))
  }

  /** All threads but the latest are finished, and with the latest this is a state of the single-thread machine. */
  ghost predicate OneThread(m: Many) {
    && Fine(m) && (forall t :: 0 <= t < |m.rts| - 1 ==> m.rts[t].RtFinished?) && !(m.rts != [] && Latest(m).RtNone?)
    && Invariant(With(m, Latest(m)))
  }

  lemma FinishedThreadRests(s: State, a: Action)
    requires Shape(s) && s.rt.RtFinished? && OfThread(a)
    ensures Step(s, a) == s
  {
  }

  lemma StaysAThread(s: State, a: Action)
    requires Shape(s) && !s.rt.RtNone?
    ensures !Step(s, a).rt.RtNone?
  {
    hide ZeroByte, Shape;
  }

  lemma LatestThreadMoves(m: Many, a: Action)
    requires OneThread(m) && m.rts != [] && OfThread(a)
    ensures OneThread(MoveStep(m, Thread(|m.rts| - 1, a)))
  {
    hide Step, Invariant, Shape;
    var s := With(m, Latest(m));
    StepKeepsInvariant(s, a);
    StaysAThread(s, a);
    var n := MoveStep(m, Thread(|m.rts| - 1, a));
    assert With(n, Latest(n)) == Step(s, a);
  }

  lemma ControlKeepsRt(s: State, a: Action)
    requires Shape(s) && !OfThread(a)
    ensures Step(s, a).rt == if a.ControlMove? && s.control.CStartSpawn? then RtSpawned else s.rt
  {
  }

  lemma OtherMoves(m: Many, a: Action)
    requires OneThread(m) && !OfThread(a) && (BeginsStart(m, Other(a)) ==> Alive(m.rts) == 0)
    ensures OneThread(MoveStep(m, Other(a)))
  {
    var s := With(m, Latest(m));
    StepKeepsInvariant(s, a);
    ControlKeepsRt(s, a);
    var n := MoveStep(m, Other(a));
    if a.CallStart? {
      if m.shared.control.CIdle? {
        NobodyAlive(m.rts);
      }
      assert With(n, Latest(n)) == Step(s, a);
    } else {
      assert s.control.CStartSpawn? ==> s.rt.RtNone? || s.rt.RtFinished?;
      hide Step, Invariant;
      assert With(n, Latest(n)) == Step(s, a);
    }
  }

  lemma {:induction false} RunKeepsOneThread(m: Many, moves: seq<Move>)
    requires OneThread(m) && StartsBeside(m, moves, 0)
    ensures OneThread(MoveRun(m, moves))
    decreases |moves|
  {
    if moves != [] {
      match moves[0] {
        case Thread(t, a) =>
          if t + 1 == |m.rts| && OfThread(a) {
            LatestThreadMoves(m, a);
          } else if t < |m.rts| && OfThread(a) {
            FinishedThreadRests(With(m, m.rts[t]), a);
            assert m.rts[t := m.rts[t]] == m.rts;
            assert MoveStep(m, moves[0]) == m;
          }
        case Other(a) =>
          if !OfThread(a) {
            OtherMoves(m, a);
          }
      }
      hide MoveStep, OneThread;
      RunKeepsOneThread(MoveStep(m, moves[0]), moves[1..]);
    }
  }

  lemma OneThreadIsSafe(m: Many)
    requires OneThread(m) && m.shared.faultLatched
    ensures Safe(m)
  {
    var s := With(m, Latest(m));
    forall t | 0 <= t < |m.rts| ensures SafeRt(m.shared, m.rts[t]) {
      if t == |m.rts| - 1 {
        assert m.rts[t] == s.rt;
      }
    }
    ZeroPrefixes(s.iomap);
    hide ZeroUpTo, AllZero;
  }

  ghost predicate InitialMany(m: Many) {
    Fine(m) && m.rts == [] && Initial(m.shared)
  }

  /**
   The law at the level of the callers: if until now start was only called with no RT thread alive, a latched fault means
   zeros in every frame until start clears it, even if start is called beside a live thread later.
   */
  lemma StartsAloneKeepOutputsSafe(m: Many, before: seq<Move>, after: seq<Move>)
    requires InitialMany(m) && StartsBeside(m, before, 0) && MoveRun(m, before).shared.faultLatched && NoClear(after)
    ensures var t, u := MoveRun(m, before), MoveRun(MoveRun(m, before), after);
      t.shared.frames <= u.shared.frames && ZeroFrom(u.shared.frames, |t.shared.frames|)
  {
    assert Invariant(With(m, Latest(m)));
    RunKeepsOneThread(m, before);
    OneThreadIsSafe(MoveRun(m, before));
    SafeForever(MoveRun(m, before), after);
  }

  // ---------------------------------------------------------------- two threads

  lemma {:induction false} MoveRunConcat(m: Many, a: seq<Move>, b: seq<Move>)
    requires Fine(m)
    ensures MoveRun(m, a + b) == MoveRun(MoveRun(m, a), b)
    decreases |a|
  {
    hide MoveStep;
    if a == [] {
      assert a + b == b;
    } else {
      assert (a + b)[0] == a[0] && (a + b)[1..] == a[1..] + b;
      MoveRunConcat(MoveStep(m, a[0]), a[1..], b);
    }
  }

  ghost function StartLeft(c: Control, size: nat): nat {
    match c
    case CStartMap(k) => 2 * size + 9 + if k < size then size - k else 0
    case CStartZero(0, k) => size + 7 + if k < size then size - k else 0
    case CStartZero(1, k) => 6 + if k < size then size - k else 0
    case CStartZero(_, _) => 5
    case CStartSend => 4
    case CStartAllow => 3
    case CStartSpawn => 2
    case _ => 0
  }

  /** The next step of a start that succeeds. */
  ghost function StartMove(c: Control): Move {
    if c.CStartSend? then Other(StartClearLatch) else Other(ControlMove)
  }

  lemma ClearMoved(m: Many)
    requires Fine(m) && m.shared.control.CStartSend?
    ensures var n := MoveStep(m, Other(StartClearLatch));
      n.shared == m.shared.(faultLatched := false, control := CStartAllow) && n.rts == m.rts
  {
    hide ControlStep, RtStep, Shape;
  }

  /** A step of a start on the way to its frame or after it. */
  lemma StartStep(s: State)
    requires Shape(s) && Starting(s.control) && !s.control.CStartSend?
    ensures var u := ControlStep(s);
      && u.faultLatched == s.faultLatched && u.size == s.size
      && StartLeft(u.control, u.size) < StartLeft(s.control, s.size)
      && (Starting(u.control) || u.control.CIdle?)
      && (s.control.CStartSpawn? <==> u.control.CIdle?)
      && (u.control.CStartAllow? ==> s.control.CStartSend?)
      && (u.control.CStartSpawn? <==> s.control.CStartAllow?)
      && u.shouldRun == (s.shouldRun || s.control.CStartAllow?)
  {
    hide ZeroByte, Shape;
  }

  lemma StartProceeds(m: Many)
    requires Fine(m) && Starting(m.shared.control)
    ensures var n := MoveStep(m, StartMove(m.shared.control));
      && StartLeft(n.shared.control, n.shared.size) < StartLeft(m.shared.control, m.shared.size)
      && (Starting(n.shared.control) || n.shared.control.CIdle?)
      && n.rts == (if m.shared.control.CStartSpawn? then m.rts + [RtSpawned] else m.rts)
      && (m.shared.control.CStartSpawn? <==> n.shared.control.CIdle?)
      && (n.shared.control.CStartAllow? || n.shared.control.CStartSpawn? || n.shared.control.CIdle? ==>
            if m.shared.control.CStartSend? then !n.shared.faultLatched else n.shared.faultLatched == m.shared.faultLatched)
      && (m.shared.control.CStartAllow? ==> n.shared.shouldRun)
      && (!m.shared.control.CStartAllow? ==> n.shared.shouldRun == m.shared.shouldRun)
  {
    hide MoveStep, ControlStep, Shape;
    if m.shared.control.CStartSend? {
      ClearMoved(m);
    } else {
      ControlMoved(m);
      StartStep(With(m, Latest(m)));
    }
  }

  /** A start once begun can run to its end: the latch is cleared, the loop allowed, one more thread spawned. */
  lemma {:induction false} StartFinishes(m: Many) returns (moves: seq<Move>)
    requires Fine(m) && Starting(m.shared.control)
    requires m.shared.control.CStartAllow? || m.shared.control.CStartSpawn? ==> !m.shared.faultLatched
    requires m.shared.control.CStartSpawn? ==> m.shared.shouldRun
    ensures var n := MoveRun(m, moves);
      n.shared.control.CIdle? && !n.shared.faultLatched && n.shared.shouldRun && n.rts == m.rts + [RtSpawned]
    decreases StartLeft(m.shared.control, m.shared.size)
  {
    var move := StartMove(m.shared.control);
    StartProceeds(m);
    var n := MoveStep(m, move);
    hide MoveStep, StartLeft;
    if n.shared.control.CIdle? {
      moves := [move];
      assert moves[1..] == [];
      assert MoveRun(m, moves) == MoveRun(n, []);
    } else {
      var rest := StartFinishes(n);
      moves := [move] + rest;
      assert moves[1..] == rest;
      assert MoveRun(m, moves) == MoveRun(n, rest);
    }
  }

  lemma WholeStart(m: Many) returns (moves: seq<Move>)
    requires Fine(m) && m.shared.control.CIdle?
    ensures var n := MoveRun(m, moves);
      n.shared.control.CIdle? && !n.shared.faultLatched && n.shared.shouldRun && n.rts == m.rts + [RtSpawned]
  {
    var call := Other(CallStart);
    var n := MoveStep(m, call);
    assert n == Many(m.shared.(control := CStartMap(0)), m.rts);
    hide MoveStep;
    var rest := StartFinishes(n);
    moves := [call] + rest;
    assert moves[1..] == rest;
    assert MoveRun(m, moves) == MoveRun(n, rest);
  }

  ghost function LoopLeft(rt: Rt, size: nat): nat {
    match rt
    case RtSpawned => size + 9
    case RtLoopTest => size + 8
    case RtLoadIndex => size + 7
    case RtLoadLatch(_) => size + 6
    case RtCopying(_, _, k) => if k < size then size - k + 2 else 2
    case RtSending(_) => 1
    case _ => 0
  }

  /** Between its start and the verdict of its first cycle. */
  ghost predicate FirstCycle(rt: Rt) {
    rt.RtSpawned? || rt.RtLoopTest? || rt.RtLoadIndex? || rt.RtLoadLatch? || rt.RtCopying? || rt.RtSending?
  }

  lemma FirstCycleProceeds(m: Many, t: nat)
    requires Fine(m) && t < |m.rts| && FirstCycle(m.rts[t]) && m.shared.shouldRun && !m.shared.faultLatched
    ensures var n := MoveStep(m, Thread(t, RtMove));
      && |n.rts| == |m.rts| && n.rts == m.rts[t := n.rts[t]] && (FirstCycle(n.rts[t]) || n.rts[t].RtJudging?)
      && n.shared.shouldRun && !n.shared.faultLatched && n.shared.control == m.shared.control
      && LoopLeft(n.rts[t], n.shared.size) < LoopLeft(m.rts[t], m.shared.size)
      && (m.rts[t].RtLoadLatch? ==> n.rts[t].RtCopying? && !n.rts[t].zero && n.rts[t].copied == 0)
      && (m.rts[t].RtSpawned? || m.rts[t].RtLoopTest? || m.rts[t].RtLoadIndex? ==>
            n.rts[t].RtLoopTest? || n.rts[t].RtLoadIndex? || n.rts[t].RtLoadLatch?)
  {
    hide ZeroByte;
  }

  /** With no fault latched a thread can go on to its first verdict, or stop where it has just begun to copy. */
  lemma {:induction false} RunFirstCycle(m: Many, t: nat, judge: bool) returns (moves: seq<Move>)
    requires Fine(m) && t < |m.rts| && FirstCycle(m.rts[t]) && m.shared.shouldRun && !m.shared.faultLatched
    requires !judge ==> !m.rts[t].RtCopying? && !m.rts[t].RtSending?
    ensures var n := MoveRun(m, moves);
      && |n.rts| == |m.rts| && n.rts == m.rts[t := n.rts[t]] && !n.shared.faultLatched && n.shared.shouldRun
      && n.shared.control == m.shared.control
      && if judge then n.rts[t].RtJudging? else n.rts[t].RtCopying? && !n.rts[t].zero && n.rts[t].copied == 0
    decreases LoopLeft(m.rts[t], m.shared.size)
  {
    var move := Thread(t, RtMove);
    FirstCycleProceeds(m, t);
    var n := MoveStep(m, move);
    hide MoveStep, LoopLeft;
    var rest: seq<Move> := [];
    if (judge && !n.rts[t].RtJudging?) || (!judge && !n.rts[t].RtCopying?) {
      rest := RunFirstCycle(n, t, judge);
    }
    moves := [move] + rest;
    assert moves[1..] == rest;
    assert MoveRun(m, moves) == MoveRun(n, rest);
  }

  /**
   Why the condition on start is needed: from every initial state, two starts in a row lead to a latched fault that is not
   safe, the first thread being about to copy under the verdict it loaded before; and from there a frame that is not zero
   can follow.
   */
  lemma StartBesideThreadLeaks(m: Many) returns (before: seq<Move>, after: seq<Move>)
    requires InitialMany(m) && m.shared.size > 0
    ensures MoveRun(m, before).shared.faultLatched && Leaks(MoveRun(m, before), after)
  {
    var start1 := WholeStart(m);
    var m1 := MoveRun(m, start1);
    var start2 := WholeStart(m1);
    var m2 := MoveRun(m1, start2);
    assert m2.rts == [RtSpawned, RtSpawned];
    hide MoveStep, MoveRun;
    var first := RunFirstCycle(m2, 0, false);
    var m3 := MoveRun(m2, first);
    assert m3.rts[1].RtSpawned?;
    var second := RunFirstCycle(m3, 1, true);
    var m4 := MoveRun(m3, second);
    var trip := Thread(1, RtJudge(true));
    TripLatches(m4);
    var m5 := MoveRun(m4, [trip]);
    after := UnlatchedCopyLeaks(m5, 0);
    MoveRunConcat(m, start1, start2);
    MoveRunConcat(m, start1 + start2, first);
    MoveRunConcat(m, start1 + start2 + first, second);
    MoveRunConcat(m, start1 + start2 + first + second, [trip]);
    before := start1 + start2 + first + second + [trip];
  }

  lemma TripLatches(m: Many)
    requires Fine(m) && |m.rts| == 2 && m.rts[1].RtJudging? && !m.shared.faultLatched
    ensures var n := MoveRun(m, [Thread(1, RtJudge(true))]);
      n.shared.faultLatched && n.shared.size == m.shared.size && |n.rts| == 2 && n.rts[0] == m.rts[0]
  {
    var trip := Thread(1, RtJudge(true));
    var n := MoveStep(m, trip);
    assert n.shared.faultLatched && n.rts[0] == m.rts[0];
    hide MoveStep;
    assert [trip][1..] == [];
    assert MoveRun(m, [trip]) == MoveRun(n, []);
  }

  // ---------------------------------------------------------------- one live thread is one too many for a start

  /** A start about to send its frame, its zeroing done. */
  ghost predicate ZeroingDone(c: Control) {
    c.CStartZero? && c.buffer >= 2
  }

  lemma StartZeroesOn(m: Many)
    requires Fine(m) && (m.shared.control.CStartMap? || m.shared.control.CStartZero?) && !ZeroingDone(m.shared.control)
    ensures var n := MoveStep(m, Other(ControlMove));
      && (n.shared.control.CStartMap? || n.shared.control.CStartZero?) && n.rts == m.rts
      && n.shared.faultLatched == m.shared.faultLatched
      && StartLeft(n.shared.control, n.shared.size) < StartLeft(m.shared.control, m.shared.size)
  {
    StartProceeds(m);
    hide MoveStep, StartLeft, ZeroByte, Shape;
    StartPhase(m);
  }

  lemma StartPhase(m: Many)
    requires Fine(m) && (m.shared.control.CStartMap? || m.shared.control.CStartZero?) && !ZeroingDone(m.shared.control)
    ensures var n := MoveStep(m, Other(ControlMove)); n.shared.control.CStartMap? || n.shared.control.CStartZero?
  {
    hide ZeroByte, Shape;
  }

  lemma {:induction false} StartZeroes(m: Many) returns (moves: seq<Move>)
    requires Fine(m) && (m.shared.control.CStartMap? || m.shared.control.CStartZero?)
    ensures var n := MoveRun(m, moves);
      ZeroingDone(n.shared.control) && n.rts == m.rts && n.shared.faultLatched == m.shared.faultLatched
    decreases StartLeft(m.shared.control, m.shared.size)
  {
    if ZeroingDone(m.shared.control) {
      moves := [];
    } else {
      var move := Other(ControlMove);
      StartZeroesOn(m);
      var n := MoveStep(m, move);
      hide MoveStep, StartLeft;
      var rest := StartZeroes(n);
      moves := [move] + rest;
      assert moves[1..] == rest;
      assert MoveRun(m, moves) == MoveRun(n, rest);
    }
  }

  lemma ThreadKeepsControl(m: Many, t: nat)
    requires Fine(m) && t < |m.rts|
    ensures var n := MoveStep(m, Thread(t, RtMove)); n.shared.control == m.shared.control && |n.rts| == |m.rts|
  {
    hide ZeroByte, Shape;
  }

  lemma SentAndJudging(m: Many, t: nat)
    requires Fine(m) && t < |m.rts| && m.rts[t].RtSending?
    ensures var n := MoveStep(m, Thread(t, RtMove)); n.rts[t].RtJudging? && n.shared.iomap == m.shared.iomap
  {
  }

  /** A thread that carries a nonzero byte takes it to its frame and to the verdict, whatever the control thread waits for. */
  lemma {:induction false} CarryToVerdict(m: Many, t: nat, j: nat) returns (moves: seq<Move>)
    requires Fine(m) && Carries(m, t, j) && (m.rts[t].RtCopying? || m.rts[t].RtSending?)
    ensures var n := MoveRun(m, moves);
      && |n.rts| == |m.rts| && n.rts[t].RtJudging? && n.shared.control == m.shared.control
      && j < n.shared.size && n.shared.iomap[j] != 0
    decreases StepsLeft(m.rts[t], m.shared.size)
  {
    var move := Thread(t, RtMove);
    var n := MoveStep(m, move);
    ThreadKeepsControl(m, t);
    var rest: seq<Move> := [];
    if m.rts[t].RtCopying? {
      CarriedOn(m, t, j);
      CopyOrSend(m, t);
      hide MoveStep, StepsLeft;
      rest := CarryToVerdict(n, t, j);
    } else {
      SentAndJudging(m, t);
      hide MoveStep;
    }
    moves := [move] + rest;
    assert moves[1..] == rest;
    assert MoveRun(m, moves) == MoveRun(n, rest);
  }

  lemma CopyOrSend(m: Many, t: nat)
    requires Fine(m) && t < |m.rts| && m.rts[t].RtCopying?
    ensures var n := MoveStep(m, Thread(t, RtMove)); n.rts[t].RtCopying? || n.rts[t].RtSending?
  {
  }

  lemma VerdictLatches(m: Many, t: nat)
    requires Fine(m) && t < |m.rts| && m.rts[t].RtJudging?
    ensures var n := MoveRun(m, [Thread(t, RtJudge(true))]);
      && n.shared.faultLatched && |n.rts| == |m.rts|
      && n.shared.control == m.shared.control && n.shared.iomap == m.shared.iomap
  {
    var trip := Thread(t, RtJudge(true));
    var n := MoveStep(m, trip);
    assert n.shared.faultLatched && n.shared.control == m.shared.control && n.shared.iomap == m.shared.iomap;
    hide MoveStep;
    assert [trip][1..] == [];
    assert MoveRun(m, [trip]) == MoveRun(n, []);
  }

  /** PLC data reaches the I/O map between a start's zeroing and its frame, and the fault is latched in between. */
  lemma DirtyStart(m: Many) returns (moves: seq<Move>)
    requires Fine(m) && m.shared.size > 0 && |m.rts| == 1 && ZeroingDone(m.shared.control)
    requires m.rts[0].RtCopying? && !m.rts[0].zero && m.rts[0].copied == 0
    ensures var n := MoveRun(m, moves);
      |n.rts| == 1 && n.shared.faultLatched && ControlCarries(n, 0)
  {
    var write, copy := Other(PlcWrite(m.rts[0].index, 0, 1)), Thread(0, RtMove);
    PlcWrites(m, m.rts[0].index, 0);
    var m1 := MoveStep(m, write);
    assert m1.shared.control == m.shared.control;
    CopiesByte(m1, 0);
    ThreadKeepsControl(m1, 0);
    CopyOrSend(m1, 0);
    var m2 := MoveStep(m1, copy);
    hide MoveStep;
    var carry := CarryToVerdict(m2, 0, 0);
    var m3 := MoveRun(m2, carry);
    var trip := [Thread(0, RtJudge(true))];
    VerdictLatches(m3, 0);
    moves := [write] + ([copy] + (carry + trip));
    assert moves[1..] == [copy] + (carry + trip) && ([copy] + (carry + trip))[1..] == carry + trip;
    assert MoveRun(m, moves) == MoveRun(m1, [copy] + (carry + trip)) == MoveRun(m2, carry + trip);
    MoveRunConcat(m2, carry, trip);
  }

  lemma StartBegins(m: Many)
    requires Fine(m) && m.shared.control.CIdle?
    ensures MoveRun(m, [Other(CallStart)]) == Many(m.shared.(control := CStartMap(0)), m.rts)
  {
    var call := Other(CallStart);
    assert MoveStep(m, call) == Many(m.shared.(control := CStartMap(0)), m.rts);
    hide MoveStep;
    assert [call][1..] == [];
    assert MoveRun(m, [call]) == MoveRun(MoveStep(m, call), []);
  }

  /**
   From every initial state: one start, and a second one called while its RT thread lives. That thread copies PLC data and
   latches a fault after the second start has zeroed the I/O map and before it sends, so its frame is not zero.
   */
  lemma OneLiveThreadLeaks(m: Many) returns (before: seq<Move>, after: seq<Move>)
    requires InitialMany(m) && m.shared.size > 0
    ensures |MoveRun(m, before).rts| <= 1 && MoveRun(m, before).shared.faultLatched && Leaks(MoveRun(m, before), after)
  {
    var start1 := WholeStart(m);
    var m1 := MoveRun(m, start1);
    var first := RunFirstCycle(m1, 0, false);
    var m2 := MoveRun(m1, first);
    var call := [Other(CallStart)];
    StartBegins(m2);
    var m3 := MoveRun(m2, call);
    hide MoveStep, MoveRun, Leaks, ControlCarries;
    var zero := StartZeroes(m3);
    var m4 := MoveRun(m3, zero);
    var dirty := DirtyStart(m4);
    var m5 := MoveRun(m4, dirty);
    after := ControlLeaks(m5, 0);
    MoveRunConcat(m, start1, first);
    MoveRunConcat(m, start1 + first, call);
    MoveRunConcat(m, start1 + first + call, zero);
    MoveRunConcat(m, start1 + first + call + zero, dirty);
    before := start1 + first + call + zero + dirty;
  }

  // ---------------------------------------------------------------- the condition on the callers is exact

  /** Along these moves at most `k` RT threads are ever alive. */
  ghost predicate AliveAtMost(m: Many, moves: seq<Move>, k: nat)
    requires Fine(m)
    decreases |moves|
  {
    Alive(m.rts) <= k && (moves == [] || AliveAtMost(MoveStep(m, moves[0]), moves[1..], k))
  }

  lemma ThreadsStay(m: Many, move: Move)
    requires Fine(m)
    ensures |m.rts| <= |MoveStep(m, move).rts|
  {
    hide Step;
  }

  lemma {:induction false} FewThreads(m: Many, moves: seq<Move>, k: nat)
    requires Fine(m) && |MoveRun(m, moves).rts| <= k
    ensures |m.rts| <= k && AliveAtMost(m, moves, k)
    decreases |moves|
  {
    hide MoveStep;
    if moves != [] {
      ThreadsStay(m, moves[0]);
      FewThreads(MoveStep(m, moves[0]), moves[1..], k);
    }
  }

  lemma {:induction false} AliveBoundsStarts(m: Many, moves: seq<Move>, k: nat)
    requires Fine(m) && AliveAtMost(m, moves, k)
    ensures StartsBeside(m, moves, k)
    decreases |moves|
  {
    hide MoveStep;
    if moves != [] {
      AliveBoundsStarts(MoveStep(m, moves[0]), moves[1..], k);
    }
  }

  /** The law after `before`: a latched fault means zeros in every frame until start clears it. */
  ghost predicate FaultMeansZeros(m: Many, before: seq<Move>)
    requires Fine(m)
  {
    var t := MoveRun(m, before);
    t.shared.faultLatched ==>
      forall after :: NoClear(after) ==> ZeroFrom(MoveRun(t, after).shared.frames, |t.shared.frames|)
  }

  lemma StartsAloneMeanZeros(m: Many, before: seq<Move>)
    requires InitialMany(m) && StartsBeside(m, before, 0)
    ensures FaultMeansZeros(m, before)
  {
    var t := MoveRun(m, before);
    if t.shared.faultLatched {
      forall after | NoClear(after) ensures ZeroFrom(MoveRun(t, after).shared.frames, |t.shared.frames|) {
        StartsAloneKeepOutputsSafe(m, before, after);
      }
    }
  }

  /** Without output bytes every state is safe. */
  lemma NoOutputsMeanZeros(m: Many, before: seq<Move>)
    requires Fine(m) && m.shared.size == 0
    ensures FaultMeansZeros(m, before)
  {
    var t := MoveRun(m, before);
    if t.shared.faultLatched {
      assert t.shared.iomap == [];
      assert Safe(t);
      forall after | NoClear(after) ensures ZeroFrom(MoveRun(t, after).shared.frames, |t.shared.frames|) {
        SafeForever(t, after);
      }
    }
  }

  /**
   The exact condition on the callers: the law holds in all runs in which start is called with at most `k` RT threads
   alive iff k is zero (or there is no output byte). A bound on the threads alive at any time does not replace it: one is
   already too many.
   */
  lemma FaultMeansZerosIffStartsAlone(m: Many, k: nat)
    requires InitialMany(m)
    ensures (forall before :: StartsBeside(m, before, k) ==> FaultMeansZeros(m, before)) <==> k == 0 || m.shared.size == 0
    ensures (forall before :: AliveAtMost(m, before, k) ==> FaultMeansZeros(m, before)) <==> k == 0 || m.shared.size == 0
  {
    assert Fine(m);
    if k == 0 || m.shared.size == 0 {
      forall before | StartsBeside(m, before, k) ensures FaultMeansZeros(m, before) {
        LawHolds(m, before, k);
      }
      forall before | AliveAtMost(m, before, k) ensures FaultMeansZeros(m, before) {
        AliveBoundsStarts(m, before, k);
        LawHolds(m, before, k);
      }
    } else {
      var before, after := OneLiveThreadLeaks(m);
      FewThreads(m, before, k);
      AliveBoundsStarts(m, before, k);
      assert Leaks(MoveRun(m, before), after);
      assert !FaultMeansZeros(m, before);
    }
  }

  lemma LawHolds(m: Many, before: seq<Move>, k: nat)
    requires InitialMany(m) && StartsBeside(m, before, k) && (k == 0 || m.shared.size == 0)
    ensures FaultMeansZeros(m, before)
  {
    if k == 0 {
      StartsAloneMeanZeros(m, before);
    } else {
      NoOutputsMeanZeros(m, before);
    }
  }
}
