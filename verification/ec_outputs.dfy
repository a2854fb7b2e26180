/**
 The two output buffers shared by the PLC thread and the RT thread of the EtherCAT backend
 (backends/ethercat/ec_backend.c:341-406, 465-471, 652-699, 732-757). A buffer here is the concatenation
 of the bound devices' out_size bytes. Each index load, exchange and store, and each copied byte,
 is one step; fault zeroing is the subject of module SafeOutputs.
 */
module OutputBuffers {
  import opened Schedules
  import opened Words

  type Image = seq<byte>

  datatype Write = Write(at: nat, value: byte)

  /** The PLC thread: outside a bracket, inside cycle_begin, inside the bracket, or inside cycle_end. */
  datatype Plc =
    | Outside
    | BeginLoadedRt(src: nat)
    | BeginCopying(src: nat, dst: nat, copied: nat)
    | Inside
    | EndLoaded(index: nat)
    | EndExchanged(previous: nat)

  datatype Rt =
    | RtIdle
    | RtCopying(src: nat, copied: nat)

  /**
   `committed` is the history of all writes made inside finished brackets, `bracket` those of the
   bracket in progress, `frames` the output parts of the process-data frames sent.
   */
  datatype State = State(
    size: nat,
    buffers: seq<Image>,
    activeOut: nat,
    rtOut: nat,
    plc: Plc,
    rt: Rt,
    iomap: Image,
    frames: seq<Image>,
    committed: seq<Write>,
    bracket: seq<Write>
  )

  datatype Action =
    | BeginLoadRt
    | BeginLoadActive
    | BeginCopyByte
    | BeginDone
    | Stage(write: Write)
    | EndLoadActive
    | EndExchange
    | EndStore
    | RtLoad
    | RtCopyByte
    | RtSend

  ghost predicate Shape(s: State) {
    && |s.buffers| == 2 && |s.buffers[0]| == |s.buffers[1]| == |s.iomap| == s.size
    && s.activeOut < 2 && s.rtOut < 2
    && (s.plc.BeginLoadedRt? ==> s.plc.src < 2)
    && (s.plc.BeginCopying? ==> s.plc.src < 2 && s.plc.dst < 2 && s.plc.copied <= s.size)
    && (s.plc.EndLoaded? ==> s.plc.index < 2)
    && (s.plc.EndExchanged? ==> s.plc.previous < 2)
    && (s.rt.RtCopying? ==> s.rt.src < 2 && s.rt.copied <= s.size)
  }

  ghost function Zeros(n: nat): Image {
    seq(n, _ => 0)
  }

  /** finalize: both buffers zero, the PLC stages into buffer 1, RT reads buffer 0. */
  ghost predicate Initial(s: State) {
    && Shape(s)
    && s.buffers == [Zeros(s.size), Zeros(s.size)]
    && s.activeOut == 1 && s.rtOut == 0
    && s.plc.Outside? && s.rt.RtIdle?
    && s.frames == [] && s.committed == [] && s.bracket == []
  }

  ghost function PlcStep(s: State, a: Action): (t: State)
    requires Shape(s)
    ensures Shape(t)
  {
    match a
    case BeginLoadRt =>
      if s.plc.Outside? then s.(plc := BeginLoadedRt(s.rtOut)) else s
    case BeginLoadActive =>
      if !s.plc.BeginLoadedRt? then s
      else if s.plc.src == s.activeOut then s.(plc := Inside)
      else s.(plc := BeginCopying(s.plc.src, s.activeOut, 0))
    case BeginCopyByte =>
      if s.plc.BeginCopying? && s.plc.copied < s.size then
        var p := s.plc;
        s.(buffers := s.buffers[p.dst := s.buffers[p.dst][p.copied := s.buffers[p.src][p.copied]]],
           plc := p.(copied := p.copied + 1))
      else s
    case BeginDone =>
      if s.plc.BeginCopying? && s.plc.copied == s.size then s.(plc := Inside) else s
    case Stage(w) =>
      if (s.plc.Outside? || s.plc.Inside?) && w.at < s.size then
        s.(buffers := s.buffers[s.activeOut := s.buffers[s.activeOut][w.at := w.value]],
           bracket := if s.plc.Inside? then s.bracket + [w] else s.bracket)
      else s
    case EndLoadActive =>
      if s.plc.Inside? then s.(plc := EndLoaded(s.activeOut)) else s
    case EndExchange =>
      if s.plc.EndLoaded? then
        s.(rtOut := s.plc.index, plc := EndExchanged(s.rtOut), committed := s.committed + s.bracket, bracket := [])
      else s
    case EndStore =>
      if s.plc.EndExchanged? then s.(activeOut := s.plc.previous, plc := Outside) else s
    case _ => s
  }

  ghost function RtStep(s: State, a: Action): (t: State)
    requires Shape(s)
    ensures Shape(t)
  {
    match a
    case RtLoad =>
      if s.rt.RtIdle? then s.(rt := RtCopying(s.rtOut, 0)) else s
    case RtCopyByte =>
      if s.rt.RtCopying? && s.rt.copied < s.size then
        var r := s.rt;
        s.(iomap := s.iomap[r.copied := s.buffers[r.src][r.copied]], rt := r.(copied := r.copied + 1))
      else s
    case RtSend =>
      if s.rt.RtCopying? && s.rt.copied == s.size then s.(rt := RtIdle, frames := s.frames + [s.iomap]) else s
    case _ => s
  }

  ghost function Step(s: State, a: Action): (t: State)
    requires Shape(s)
    ensures Shape(t) && t.size == s.size
  {
    if a.RtLoad? || a.RtCopyByte? || a.RtSend? then RtStep(s, a) else PlcStep(s, a)
  }

  ghost function Run(s: State, acts: seq<Action>): (t: State)
    requires Shape(s)
    ensures Shape(t) && t.size == s.size
    decreases |acts|
  {
    if acts == [] then s else Run(Step(s, acts[0]), acts[1..])
  }

  // ---------------------------------------------------------------- one output image

  /** The reference: an image is the fold of the writes made to it. */
  ghost function Apply(image: Image, writes: seq<Write>): (r: Image)
    ensures |r| == |image|
    decreases |writes|
  {
    if writes == [] then image
    else
      var before := Apply(image, writes[..|writes| - 1]);
      var w := writes[|writes| - 1];
      if w.at < |before| then before[w.at := w.value] else before
  }

  lemma {:induction false} ApplyConcat(image: Image, a: seq<Write>, b: seq<Write>)
    ensures Apply(image, a + b) == Apply(Apply(image, a), b)
    decreases |b|
  {
    if b == [] {
      assert a + b == a;
    } else {
      assert (a + b)[..|a + b| - 1] == a + b[..|b| - 1];
      ApplyConcat(image, a, b[..|b| - 1]);
    }
  }

  ghost predicate Invariant(s: State) {
    && Shape(s)
    && s.buffers[s.rtOut] == Apply(Zeros(s.size), s.committed)
    && (!s.plc.EndExchanged? ==> s.activeOut != s.rtOut)
    && match s.plc
       case Outside => s.bracket == []
       case BeginLoadedRt(src) => src == s.rtOut && s.bracket == []
       case BeginCopying(src, dst, k) =>
         && src == s.rtOut && dst == s.activeOut && s.bracket == []
         && s.buffers[dst][..k] == s.buffers[src][..k]
       case Inside => s.buffers[s.activeOut] == Apply(s.buffers[s.rtOut], s.bracket)
       case EndLoaded(index) =>
         index == s.activeOut && s.buffers[s.activeOut] == Apply(s.buffers[s.rtOut], s.bracket)
       case EndExchanged(previous) => s.activeOut == s.rtOut && previous != s.rtOut && s.bracket == []
  }

  lemma BeginKeepsInvariant(s: State, a: Action)
    requires Invariant(s) && (a.BeginLoadRt? || a.BeginLoadActive? || a.BeginCopyByte? || a.BeginDone?)
    ensures Invariant(Step(s, a))
  {
    var t := Step(s, a);
    assert forall image :: Apply(image, []) == image;
    hide Apply;
    if a.BeginCopyByte? && t != s {
      var k := s.plc.copied;
      assert t.buffers[t.plc.dst][..k + 1] == t.buffers[t.plc.src][..k + 1];
    }
    if a.BeginDone? && t != s {
      assert s.buffers[s.activeOut] == s.buffers[s.rtOut];
    }
  }

  lemma StageKeepsInvariant(s: State, w: Write)
    requires Invariant(s)
    ensures Invariant(Step(s, Stage(w)))
  {
    var t := Step(s, Stage(w));
    if t != s && s.plc.Inside? {
      assert t.bracket[..|t.bracket| - 1] == s.bracket;
    }
  }

  lemma EndKeepsInvariant(s: State, a: Action)
    requires Invariant(s) && (a.EndLoadActive? || a.EndExchange? || a.EndStore?)
    ensures Invariant(Step(s, a))
  {
    ApplyConcat(Zeros(s.size), s.committed, s.bracket);
    hide Apply;
  }

  lemma StepKeepsInvariant(s: State, a: Action)
    requires Invariant(s)
    ensures Invariant(Step(s, a))
  {
    match a
    case Stage(w) => StageKeepsInvariant(s, w);
    case EndLoadActive => EndKeepsInvariant(s, a);
    case EndExchange => EndKeepsInvariant(s, a);
    case EndStore => EndKeepsInvariant(s, a);
    case BeginLoadRt => BeginKeepsInvariant(s, a);
    case BeginLoadActive => BeginKeepsInvariant(s, a);
    case BeginCopyByte => BeginKeepsInvariant(s, a);
    case BeginDone => BeginKeepsInvariant(s, a);
    case _ =>
  }

  lemma {:induction false} RunKeepsInvariant(s: State, acts: seq<Action>)
    requires Invariant(s)
    ensures Invariant(Run(s, acts))
    decreases |acts|
  {
    hide Step;
    if acts != [] {
      StepKeepsInvariant(s, acts[0]);
      RunKeepsInvariant(Step(s, acts[0]), acts[1..]);
    }
  }

  /**
   Refinement of one output image: in every interleaving, the buffer RT is pointed at holds the fold
   of exactly the writes made inside finished brackets, and between PLC calls the two indices differ.
   */
  lemma PublishedImageIsFoldOfBracketWrites(s: State, acts: seq<Action>)
    requires Initial(s)
    ensures var t := Run(s, acts);
      && t.buffers[t.rtOut] == Apply(Zeros(s.size), t.committed)
      && (t.plc.Outside? || t.plc.Inside? ==> t.activeOut != t.rtOut)
      && (t.plc.Inside? ==> t.buffers[t.activeOut] == Apply(Zeros(s.size), t.committed + t.bracket))
  {
    RunKeepsInvariant(s, acts);
    var t := Run(s, acts);
    ApplyConcat(Zeros(s.size), t.committed, t.bracket);
  }

  // ---------------------------------------------------------------- the PLC thread alone

  lemma {:induction false} RunConcat(s: State, a: seq<Action>, b: seq<Action>)
    requires Shape(s)
    ensures Run(s, a + b) == Run(Run(s, a), b)
    decreases |a|
  {
    hide Step;
    if a == [] {
      assert a + b == b;
    } else {
      assert (a + b)[0] == a[0] && (a + b)[1..] == a[1..] + b;
      RunConcat(Step(s, a[0]), a[1..], b);
    }
  }

  lemma RunOne(s: State, a: Action)
    requires Shape(s)
    ensures Run(s, [a]) == Step(s, a)
  {
    assert Run(s, [a]) == Run(Step(s, a), []);
  }

  lemma RunTwo(s: State, a: Action, b: Action)
    requires Shape(s)
    ensures Run(s, [a, b]) == Step(Step(s, a), b)
  {
    hide Step;
    assert [a, b][1..] == [b];
    RunOne(Step(s, a), b);
  }

  ghost function CycleBegin(size: nat): seq<Action> {
    [BeginLoadRt, BeginLoadActive] + Repeat(BeginCopyByte, size) + [BeginDone]
  }

  ghost function CycleEnd(): seq<Action> {
    [EndLoadActive, EndExchange, EndStore]
  }

  lemma {:induction false} BeginCopyAlone(s: State)
    requires Shape(s) && s.plc.BeginCopying? && s.plc.src != s.plc.dst
    requires s.buffers[s.plc.dst][..s.plc.copied] == s.buffers[s.plc.src][..s.plc.copied]
    ensures Run(s, Repeat(BeginCopyByte, s.size - s.plc.copied))
         == s.(buffers := s.buffers[s.plc.dst := s.buffers[s.plc.src]], plc := s.plc.(copied := s.size))
    decreases s.size - s.plc.copied
  {
    var p := s.plc;
    if p.copied == s.size {
      assert s.buffers[p.dst] == s.buffers[p.src];
      assert s.buffers[p.dst := s.buffers[p.src]] == s.buffers;
    } else {
      RepeatFront(BeginCopyByte, s.size - p.copied);
      var t := Step(s, BeginCopyByte);
      assert t.buffers[p.dst][..p.copied + 1] == t.buffers[p.src][..p.copied + 1];
      BeginCopyAlone(t);
      assert t.buffers[p.dst := t.buffers[p.src]] == s.buffers[p.dst := s.buffers[p.src]];
    }
  }

  /** cycle_begin replaces the staging buffer by the published one and touches nothing else. */
  lemma CycleBeginAlone(s: State)
    requires Shape(s) && s.plc.Outside? && s.activeOut != s.rtOut
    ensures Run(s, CycleBegin(s.size))
         == s.(buffers := s.buffers[s.activeOut := s.buffers[s.rtOut]], plc := Inside)
  {
    var copy := Repeat(BeginCopyByte, s.size);
    RunTwo(s, BeginLoadRt, BeginLoadActive);
    var s1 := s.(plc := BeginCopying(s.rtOut, s.activeOut, 0));
    BeginCopyAlone(s1);
    var s2 := Run(s1, copy);
    RunOne(s2, BeginDone);
    assert Step(s2, BeginDone) == s2.(plc := Inside);
    hide Run, Step;
    RunConcat(s, [BeginLoadRt, BeginLoadActive], copy);
    RunConcat(s, [BeginLoadRt, BeginLoadActive] + copy, [BeginDone]);
  }

  /** cycle_end swaps the two buffers' roles. */
  lemma CycleEndAlone(s: State)
    requires Shape(s) && s.plc.Inside?
    ensures Run(s, CycleEnd())
         == s.(rtOut := s.activeOut, activeOut := s.rtOut, plc := Outside,
               committed := s.committed + s.bracket, bracket := [])
  {
    var s1 := Step(s, EndLoadActive);
    var s2 := Step(s1, EndExchange);
    var s3 := Step(s2, EndStore);
    assert CycleEnd()[1..] == [EndExchange, EndStore];
    RunTwo(s1, EndExchange, EndStore);
    assert Run(s, CycleEnd()) == Run(s1, CycleEnd()[1..]);
  }

  /** A write staged outside a bracket leaves no trace once the next cycle_begin has run. */
  lemma {:induction false} OutsideWritesAreDiscarded(s: State, w: Write)
    requires Invariant(s) && s.plc.Outside?
    ensures Run(Step(s, Stage(w)), CycleBegin(s.size)) == Run(s, CycleBegin(s.size))
  {
    var t := Step(s, Stage(w));
    CycleBeginAlone(s);
    CycleBeginAlone(t);
    assert t.buffers[s.activeOut := s.buffers[s.rtOut]] == s.buffers[s.activeOut := s.buffers[s.rtOut]];
  }

  // ---------------------------------------------------------------- what RT sends

  /** The step stores a byte in an output buffer: staged, or copied by cycle_begin. */
  ghost predicate WritesOutput(s: State, a: Action) {
    match a
    case Stage(w) => (s.plc.Outside? || s.plc.Inside?) && w.at < s.size
    case BeginCopyByte => s.plc.BeginCopying? && s.plc.copied < s.size
    case _ => false
  }

  /** The step writes no byte that an RT copy in progress still has to read. */
  ghost predicate SparesRtCopy(s: State, a: Action) {
    s.rt.RtCopying? ==>
      && !a.RtSend?
      && (a.Stage? && WritesOutput(s, a) && s.activeOut == s.rt.src ==> a.write.at < s.rt.copied)
      && (a.BeginCopyByte? && WritesOutput(s, a) && s.plc.dst == s.rt.src ==> s.plc.copied < s.rt.copied)
  }

  ghost predicate Undisturbed(s: State, acts: seq<Action>)
    requires Shape(s)
    decreases |acts|
  {
    acts == [] || (SparesRtCopy(s, acts[0]) && Undisturbed(Step(s, acts[0]), acts[1..]))
  }

  /** The bytes already copied, and those still to be copied, are those of `image`. */
  ghost predicate CopiesFrom(s: State, image: Image) {
    && Shape(s) && s.rt.RtCopying? && |image| == s.size
    && s.iomap[..s.rt.copied] == image[..s.rt.copied]
    && s.buffers[s.rt.src][s.rt.copied..] == image[s.rt.copied..]
  }

  lemma SparingStepKeepsCopy(s: State, a: Action, image: Image)
    requires CopiesFrom(s, image) && SparesRtCopy(s, a)
    ensures CopiesFrom(Step(s, a), image) && Step(s, a).frames == s.frames
  {
    var t := Step(s, a);
    var r := s.rt;
    if a.RtCopyByte? && t != s {
      assert s.buffers[r.src][r.copied] == image[r.copied] by {
        assert s.buffers[r.src][r.copied..][0] == image[r.copied..][0];
      }
      assert t.iomap[..r.copied + 1] == image[..r.copied + 1];
      assert t.buffers[r.src][r.copied + 1..] == image[r.copied + 1..] by {
        assert s.buffers[r.src][r.copied..][1..] == image[r.copied..][1..];
      }
    }
    if a.BeginCopyByte? && t != s {
      assert t.buffers[r.src][r.copied..] == s.buffers[r.src][r.copied..];
    }
    if a.Stage? && t != s {
      assert t.buffers[r.src][r.copied..] == s.buffers[r.src][r.copied..];
    }
  }

  lemma {:induction false} UndisturbedKeepsCopy(s: State, acts: seq<Action>, image: Image)
    requires CopiesFrom(s, image) && Undisturbed(s, acts)
    ensures CopiesFrom(Run(s, acts), image) && Run(s, acts).frames == s.frames
    decreases |acts|
  {
    hide Step;
    if acts != [] {
      SparingStepKeepsCopy(s, acts[0], image);
      UndisturbedKeepsCopy(Step(s, acts[0]), acts[1..], image);
    }
  }

  /**
   A frame is the whole image published when RT loaded its index, as long as the PLC thread meanwhile
   writes no byte of that buffer that RT has not copied yet.
   */
  lemma UndisturbedFrameIsPublishedImage(s: State, acts: seq<Action>)
    requires Invariant(s) && s.rt.RtIdle?
    requires Undisturbed(Step(s, RtLoad), acts)
    requires Run(Step(s, RtLoad), acts).rt == RtCopying(s.rtOut, s.size)
    ensures Step(Run(Step(s, RtLoad), acts), RtSend).frames == s.frames + [Apply(Zeros(s.size), s.committed)]
  {
    var image := s.buffers[s.rtOut];
    var s1 := Step(s, RtLoad);
    assert CopiesFrom(s1, image);
    UndisturbedKeepsCopy(s1, acts, image);
    var t := Run(s1, acts);
    assert t.iomap == t.iomap[..s.size] && image == image[..s.size];
  }

  // ---------------------------------------------------------------- when a frame is whole

  ghost predicate Publishes(s: State, a: Action) {
    a.EndExchange? && s.plc.EndLoaded?
  }

  /** How many bytes the PLC thread stores after its first cycle_end exchange. */
  ghost function LateWrites(s: State, published: bool, acts: seq<Action>): nat
    requires Shape(s)
    decreases |acts|
  {
    if acts == [] then 0
    else
      (if published && WritesOutput(s, acts[0]) then 1 else 0)
      + LateWrites(Step(s, acts[0]), published || Publishes(s, acts[0]), acts[1..])
  }

  ghost predicate NoSend(acts: seq<Action>) {
    forall i :: 0 <= i < |acts| ==> !acts[i].RtSend?
  }

  /** From its load of the index on, RT copies all bytes within `acts`. */
  ghost predicate CopiesAll(s: State, acts: seq<Action>)
    requires Shape(s)
  {
    NoSend(acts) && Run(Step(s, RtLoad), acts).rt == RtCopying(s.rtOut, s.size)
  }

  /** The frame sent after that copy is the image that was published when RT loaded the index. */
  ghost predicate SendsWholeFrame(s: State, acts: seq<Action>)
    requires Shape(s)
  {
    Step(Run(Step(s, RtLoad), acts), RtSend).frames == s.frames + [Apply(Zeros(s.size), s.committed)]
  }

  lemma PublishedBufferIsSpared(s: State, a: Action)
    requires Invariant(s) && s.rt.RtCopying? && !a.RtSend?
    ensures s.rt.src == s.rtOut || !WritesOutput(s, a) ==> SparesRtCopy(s, a)
    ensures Step(s, a).rt.RtCopying? && Step(s, a).rt.src == s.rt.src
    ensures !Publishes(s, a) ==> Step(s, a).rtOut == s.rtOut
  {
    hide Apply;
  }

  lemma {:induction false} NoLateWritesUndisturbed(s: State, published: bool, acts: seq<Action>)
    requires Invariant(s) && s.rt.RtCopying? && (published || s.rt.src == s.rtOut)
    requires NoSend(acts) && LateWrites(s, published, acts) == 0
    ensures Undisturbed(s, acts)
    decreases |acts|
  {
    if acts != [] {
      StepKeepsInvariant(s, acts[0]);
      PublishedBufferIsSpared(s, acts[0]);
      hide Step, Invariant, WritesOutput, SparesRtCopy;
      NoLateWritesUndisturbed(Step(s, acts[0]), published || Publishes(s, acts[0]), acts[1..]);
    }
  }

  lemma NoLateWritesSendWholeFrame(s: State, acts: seq<Action>)
    requires Invariant(s) && s.rt.RtIdle? && CopiesAll(s, acts) && LateWrites(Step(s, RtLoad), false, acts) == 0
    ensures SendsWholeFrame(s, acts)
  {
    StepKeepsInvariant(s, RtLoad);
    NoLateWritesUndisturbed(Step(s, RtLoad), false, acts);
    UndisturbedFrameIsPublishedImage(s, acts);
  }

  // ---------------------------------------------------------------- one late write spoils it

  /** What the PLC thread does next, if its tasks stage nothing. */
  ghost function NextOfPlc(s: State): Action {
    match s.plc
    case Outside => BeginLoadRt
    case BeginLoadedRt(_) => BeginLoadActive
    case BeginCopying(_, _, k) => if k < s.size then BeginCopyByte else BeginDone
    case Inside => EndLoadActive
    case EndLoaded(_) => EndExchange
    case EndExchanged(_) => EndStore
  }

  /** The number of steps before its next exchange. */
  ghost function UntilExchange(s: State): nat {
    match s.plc
    case EndExchanged(_) => s.size + 6
    case Outside => s.size + 5
    case BeginLoadedRt(_) => s.size + 4
    case BeginCopying(_, _, k) => if k < s.size then s.size - k + 3 else 3
    case Inside => 2
    case EndLoaded(_) => 0
  }

  /** RT stands at the beginning of a copy of `image`, as in `s`. */
  ghost predicate CopyBegun(s: State, src: nat, image: Image) {
    Shape(s) && s.rt == RtCopying(src, 0) && s.buffers[src] == image
  }

  lemma NextKeepsCopyBegun(s: State, src: nat, image: Image)
    requires Invariant(s) && CopyBegun(s, src, image) && s.rtOut == src
    ensures var t := Step(s, NextOfPlc(s));
      CopyBegun(t, src, image) && t.frames == s.frames && t.iomap == s.iomap
    ensures !s.plc.EndLoaded? ==>
      var t := Step(s, NextOfPlc(s)); t.rtOut == src && UntilExchange(t) < UntilExchange(s) && !Publishes(s, NextOfPlc(s))
  {
    hide Apply;
  }

  lemma LateWritesFront(s: State, published: bool, a: Action, rest: seq<Action>)
    requires Shape(s)
    ensures LateWrites(s, published, [a] + rest)
         == (if published && WritesOutput(s, a) then 1 else 0) + LateWrites(Step(s, a), published || Publishes(s, a), rest)
    ensures Run(s, [a] + rest) == Run(Step(s, a), rest)
  {
    hide Step;
    assert ([a] + rest)[1..] == rest;
  }

  lemma {:induction false} LateWritesConcat(s: State, published: bool, a: seq<Action>, b: seq<Action>)
    requires Shape(s)
    ensures LateWrites(s, published, a + b) <= LateWrites(s, published, a) + LateWrites(Run(s, a), true, b)
    decreases |a|, |b|
  {
    hide Step, WritesOutput, Publishes;
    if a != [] {
      assert (a + b)[1..] == a[1..] + b;
      LateWritesConcat(Step(s, a[0]), published || Publishes(s, a[0]), a[1..], b);
    } else if b != [] {
      assert a + b == b;
      var t := Step(s, b[0]);
      LateWritesConcat(t, published || Publishes(s, b[0]), [], b[1..]);
      assert [] + b[1..] == b[1..];
    } else {
      assert a + b == [];
    }
  }

  /** However far the PLC thread is, it can go on to publish; RT's buffer is then the one it stages into. */
  lemma {:induction false} PublishOnce(s: State, src: nat, image: Image) returns (acts: seq<Action>)
    requires Invariant(s) && CopyBegun(s, src, image) && s.rtOut == src
    ensures NoSend(acts) && LateWrites(s, false, acts) == 0
    ensures var t := Run(s, acts);
      CopyBegun(t, src, image) && t.plc.Outside? && t.activeOut == src && t.frames == s.frames
    decreases UntilExchange(s)
  {
    var a := NextOfPlc(s);
    NextKeepsCopyBegun(s, src, image);
    if s.plc.EndLoaded? {
      acts := PublishNow(s, src, image);
    } else {
      StepKeepsInvariant(s, a);
      NotSend(s);
      hide Step, Run, Invariant, CopyBegun, UntilExchange, NextOfPlc, Publishes, LateWrites;
      var rest := PublishOnce(Step(s, a), src, image);
      acts := [a] + rest;
      LateWritesFront(s, false, a, rest);
    }
  }

  lemma NotSend(s: State)
    ensures !NextOfPlc(s).RtSend?
  {
  }

  lemma PublishNow(s: State, src: nat, image: Image) returns (acts: seq<Action>)
    requires Invariant(s) && CopyBegun(s, src, image) && s.rtOut == src && s.plc.EndLoaded?
    ensures NoSend(acts) && LateWrites(s, false, acts) == 0
    ensures var t := Run(s, acts);
      CopyBegun(t, src, image) && t.plc.Outside? && t.activeOut == src && t.frames == s.frames
  {
    acts := [EndExchange] + [EndStore];
    var t := Step(s, EndExchange);
    LateWritesFront(s, false, EndExchange, [EndStore]);
    assert [EndStore] + [] == [EndStore];
    LateWritesFront(t, true, EndStore, []);
    hide Apply;
  }

  /** RT copies the whole buffer undisturbed. */
  lemma {:induction false} RtCopyAlone(s: State)
    requires Shape(s) && s.rt.RtCopying? && s.iomap[..s.rt.copied] == s.buffers[s.rt.src][..s.rt.copied]
    ensures var t := Run(s, Repeat(RtCopyByte, s.size - s.rt.copied));
      t == s.(iomap := s.buffers[s.rt.src], rt := s.rt.(copied := s.size))
    ensures LateWrites(s, true, Repeat(RtCopyByte, s.size - s.rt.copied)) == 0
    decreases s.size - s.rt.copied
  {
    var r := s.rt;
    if r.copied == s.size {
      assert s.iomap == s.buffers[r.src];
    } else {
      RepeatFront(RtCopyByte, s.size - r.copied);
      var t := Step(s, RtCopyByte);
      assert t.iomap[..r.copied + 1] == t.buffers[r.src][..r.copied + 1];
      RtCopyAlone(t);
    }
  }

  /** One byte staged right after a cycle_end, into the buffer that RT has begun to copy. */
  lemma LateWriteSpoils(s: State, src: nat, image: Image, v: byte)
    requires CopyBegun(s, src, image) && s.plc.Outside? && s.activeOut == src && s.size > 0 && v != image[0]
    ensures var acts := [Stage(Write(0, v))] + Repeat(RtCopyByte, s.size);
      && NoSend(acts) && LateWrites(s, true, acts) == 1
      && Run(s, acts).rt == RtCopying(src, s.size) && Run(s, acts).iomap[0] == v && Run(s, acts).frames == s.frames
  {
    var copy := Repeat(RtCopyByte, s.size);
    var acts := [Stage(Write(0, v))] + copy;
    var t := Step(s, acts[0]);
    assert acts[1..] == copy && t.buffers[src][0] == v;
    RtCopyAlone(t);
    hide Step;
    assert Run(s, acts) == Run(t, copy);
  }

  lemma SpoiltFrame(s: State, u: State, v: byte)
    requires Invariant(s) && Shape(u) && u.size == s.size > 0 && v != s.buffers[s.rtOut][0]
    requires u.rt == RtCopying(s.rtOut, u.size) && u.iomap[0] == v && u.frames == s.frames
    ensures Step(u, RtSend).frames != s.frames + [Apply(Zeros(s.size), s.committed)]
  {
    assert Step(u, RtSend).frames == s.frames + [u.iomap];
    assert (s.frames + [u.iomap])[|s.frames|] == u.iomap;
    hide Apply;
  }

  /** From every state in which RT may load the index, some schedule with a single late write sends a spoilt frame. */
  lemma OneLateWriteSpoils(s: State) returns (acts: seq<Action>)
    requires Invariant(s) && s.rt.RtIdle? && s.size > 0
    ensures CopiesAll(s, acts) && LateWrites(Step(s, RtLoad), false, acts) <= 1 && !SendsWholeFrame(s, acts)
  {
    var src, image := s.rtOut, s.buffers[s.rtOut];
    var s1 := Step(s, RtLoad);
    StepKeepsInvariant(s, RtLoad);
    assert CopyBegun(s1, src, image);
    var v: byte := if image[0] == 0 then 1 else 0;
    var publish := PublishOnce(s1, src, image);
    hide Step, Run, LateWrites, Invariant;
    var s2 := Run(s1, publish);
    var spoil := [Stage(Write(0, v))] + Repeat(RtCopyByte, s.size);
    LateWriteSpoils(s2, src, image, v);
    acts := publish + spoil;
    RunConcat(s1, publish, spoil);
    LateWritesConcat(s1, false, publish, spoil);
    SpoiltFrame(s, Run(s1, acts), v);
  }

  lemma {:induction false} NoSendKeepsFrames(s: State, acts: seq<Action>)
    requires Shape(s) && NoSend(acts)
    ensures Run(s, acts).frames == s.frames
    decreases |acts|
  {
    if acts != [] {
      NoSendKeepsFrames(Step(s, acts[0]), acts[1..]);
    }
  }

  lemma EmptyFrameIsWhole(s: State, acts: seq<Action>)
    requires Shape(s) && s.size == 0 && CopiesAll(s, acts)
    ensures SendsWholeFrame(s, acts)
  {
    NoSendKeepsFrames(Step(s, RtLoad), acts);
    assert Run(Step(s, RtLoad), acts).iomap == Apply(Zeros(s.size), s.committed);
  }

  /**
   The exact condition of the whole-frame promise: in all schedules in which the PLC thread stores at most `m` bytes
   between a cycle_end and the end of the RT copy it falls into, the frame is the image published when RT loaded its
   index, iff m is zero (or there is no output byte at all). One cycle_end at any moment does no harm by itself.
   */
  lemma FrameIsWholeIffNoLateWrites(s: State, m: nat)
    requires Invariant(s) && s.rt.RtIdle?
    ensures (forall acts :: CopiesAll(s, acts) && LateWrites(Step(s, RtLoad), false, acts) <= m ==> SendsWholeFrame(s, acts))
       <==> m == 0 || s.size == 0
  {
    assert Shape(s) && Shape(Step(s, RtLoad));
    hide Step, Shape, CopiesAll, LateWrites, SendsWholeFrame, Invariant;
    if m == 0 || s.size == 0 {
      forall acts | CopiesAll(s, acts) && LateWrites(Step(s, RtLoad), false, acts) <= m ensures SendsWholeFrame(s, acts) {
        if s.size == 0 {
          EmptyFrameIsWhole(s, acts);
        } else {
          NoLateWritesSendWholeFrame(s, acts);
        }
      }
    } else {
      var acts := OneLateWriteSpoils(s);
    }
  }

  /** Two bytes, two PLC cycles that set both to 1, then both to 2, and the beginning of a third. */
  ghost function CycleWriting(v: byte): seq<Action> {
    CycleBegin(2) + [Stage(Write(0, v)), Stage(Write(1, v))] + CycleEnd()
  }

  lemma StageBothAlone(s: State, v: byte)
    requires Shape(s) && s.size == 2 && s.plc.Inside? && s.bracket == []
    ensures Run(s, [Stage(Write(0, v)), Stage(Write(1, v))])
         == s.(buffers := s.buffers[s.activeOut := [v, v]], bracket := [Write(0, v), Write(1, v)])
  {
    RunTwo(s, Stage(Write(0, v)), Stage(Write(1, v)));
    var t := Step(Step(s, Stage(Write(0, v))), Stage(Write(1, v)));
    assert t.buffers[s.activeOut] == [v, v];
    assert t.buffers == s.buffers[s.activeOut := [v, v]];
  }

  lemma {:induction false} CycleWritingAlone(s: State, v: byte)
    requires Shape(s) && s.size == 2 && s.plc.Outside? && s.activeOut != s.rtOut && s.bracket == []
    ensures Run(s, CycleWriting(v))
         == s.(buffers := s.buffers[s.activeOut := [v, v]], rtOut := s.activeOut, activeOut := s.rtOut,
               committed := s.committed + [Write(0, v), Write(1, v)])
  {
    var stage := [Stage(Write(0, v)), Stage(Write(1, v))];
    CycleBeginAlone(s);
    var s1 := Run(s, CycleBegin(2));
    StageBothAlone(s1, v);
    var s2 := Run(s1, stage);
    assert s2.buffers == s.buffers[s.activeOut := [v, v]];
    CycleEndAlone(s2);
    hide Run, Step;
    RunConcat(s, CycleBegin(2), stage);
    RunConcat(s, CycleBegin(2) + stage, CycleEnd());
  }

  /**
   Two buffers cannot promise more: with the PLC a full cycle and a half ahead of one RT copy, the frame
   mixes two published images and equals none of them.
   */
  lemma FrameCanTear(s: State) returns (acts: seq<Action>)
    requires Initial(s) && s.size == 2
    ensures Run(s, acts).frames == [[1, 2]]
  {
    CycleWritingAlone(s, 1);
    var s1 := Run(s, CycleWriting(1));
    assert s1.buffers[1] == [1, 1];
    hide Run, Step, CycleWriting;
    var tear := TearOneCopy(s1);
    RunConcat(s, CycleWriting(1), tear);
    acts := CycleWriting(1) + tear;
  }

  /** RT reads byte 0 of [1, 1]; the PLC publishes [2, 2] and begins again; RT reads byte 1. */
  lemma TearOneCopy(s: State) returns (acts: seq<Action>)
    requires Shape(s) && s.size == 2 && s.plc.Outside? && s.rt.RtIdle? && s.bracket == [] && s.frames == []
    requires s.rtOut == 1 && s.activeOut == 0 && s.buffers[1] == [1, 1]
    ensures Run(s, acts).frames == [[1, 2]]
  {
    RunTwo(s, RtLoad, RtCopyByte);
    var s2 := Run(s, [RtLoad, RtCopyByte]);
    assert s2.iomap[0] == 1 && s2.rt == RtCopying(1, 1);
    CycleWritingAlone(s2, 2);
    var s3 := Run(s2, CycleWriting(2));
    CycleBeginAlone(s3);
    var s4 := Run(s3, CycleBegin(2));
    assert s4.buffers[1] == [2, 2];
    SendSecondByte(s4);
    hide Run, Step, CycleWriting;
    RunConcat(s, [RtLoad, RtCopyByte], CycleWriting(2));
    RunConcat(s, [RtLoad, RtCopyByte] + CycleWriting(2), CycleBegin(2));
    RunConcat(s, [RtLoad, RtCopyByte] + CycleWriting(2) + CycleBegin(2), [RtCopyByte, RtSend]);
    acts := [RtLoad, RtCopyByte] + CycleWriting(2) + CycleBegin(2) + [RtCopyByte, RtSend];
  }

  lemma SendSecondByte(s: State)
    requires Shape(s) && s.size == 2 && s.rt == RtCopying(1, 1) && s.iomap[0] == 1 && s.buffers[1] == [2, 2]
    requires s.frames == []
    ensures Run(s, [RtCopyByte, RtSend]).frames == [[1, 2]]
  {
    RunTwo(s, RtCopyByte, RtSend);
    assert Step(s, RtCopyByte).iomap == [1, 2];
  }

  // ---------------------------------------------------------------- the code on one thread

  /** The output half of EthercatDriver_t. */
  class OutputSide {
    const buffer0: array<byte>
    const buffer1: array<byte>
    var activeOut: int
    var rtOut: int

    /** The two indices name the two buffers, one each. */
    ghost predicate Valid()
      reads this
    {
      && buffer0 != buffer1 && buffer0.Length == buffer1.Length
      && ((activeOut == 0 && rtOut == 1) || (activeOut == 1 && rtOut == 0))
    }

    function Buffer(index: int): array<byte> {
      if index == 0 then buffer0 else buffer1
    }

    ghost function Published(): Image
      reads this, buffer0, buffer1
    {
      Buffer(rtOut)[..]
    }

    ghost function Staging(): Image
      reads this, buffer0, buffer1
    {
      Buffer(activeOut)[..]
    }

    constructor (size: nat)
      ensures Valid() && fresh(buffer0) && fresh(buffer1)
      ensures Published() == Staging() == Zeros(size)
    {
      buffer0 := new byte[size](_ => 0);
      buffer1 := new byte[size](_ => 0);
      activeOut, rtOut := 1, 0;
    }

    /** ethercat_load_buffer_index on either index: anything but 0 or 1 is replaced by the fallback. */
    method LoadActive(fallback: int) returns (index: int)
      requires fallback == 0 || fallback == 1
      modifies this`activeOut
      ensures index == activeOut == if 0 <= old(activeOut) <= 1 then old(activeOut) else fallback
    {
      index := activeOut;
      if index < 0 || index > 1 {
        index := fallback;
        activeOut := index;
      }
    }

    method LoadRt(fallback: int) returns (index: int)
      requires fallback == 0 || fallback == 1
      modifies this`rtOut
      ensures index == rtOut == if 0 <= old(rtOut) <= 1 then old(rtOut) else fallback
    {
      index := rtOut;
      if index < 0 || index > 1 {
        index := fallback;
        rtOut := index;
      }
    }

    method CycleBegin()
      requires Valid()
      modifies this`activeOut, this`rtOut, buffer0, buffer1
      ensures Valid() && activeOut == old(activeOut) && rtOut == old(rtOut)
      ensures Published() == old(Published()) && Staging() == old(Published())
    {
      var rtIndex := LoadRt(0);
      var plcIndex := LoadActive(1);
      if rtIndex != plcIndex {
        CopyBuffer(Buffer(rtIndex), Buffer(plcIndex));
      }
    }

    method Stage(w: Write)
      requires Valid()
      modifies this`activeOut, buffer0, buffer1
      ensures Valid() && activeOut == old(activeOut)
      ensures Published() == old(Published()) && Staging() == Apply(old(Staging()), [w])
    {
      var index := LoadActive(1);
      var buffer := Buffer(index);
      if w.at < buffer.Length {
        buffer[w.at] := w.value;
      }
      assert [w][..0] == [] && Apply(old(Staging()), []) == old(Staging());
      assert Staging() == Apply(old(Staging()), [w]);
    }

    method CycleEnd()
      requires Valid()
      modifies this`activeOut, this`rtOut
      ensures Valid()
      ensures Published() == old(Staging()) && Staging() == old(Published())
    {
      var plcOut := LoadActive(1);
      var previous := rtOut;
      rtOut := plcOut;
      if previous < 0 || previous > 1 {
        previous := if plcOut == 0 then 1 else 0;
      }
      activeOut := previous;
    }

    /** A whole PLC cycle that stages `writes`: the new published image is the old one with them applied. */
    method Cycle(writes: seq<Write>)
      requires Valid()
      modifies this`activeOut, this`rtOut, buffer0, buffer1
      ensures Valid()
      ensures Published() == Apply(old(Published()), writes)
    {
      ghost var before := Published();
      CycleBegin();
      var i := 0;
      assert Apply(before, writes[..0]) == before;
      while i < |writes|
        invariant 0 <= i <= |writes| && Valid()
        invariant Staging() == Apply(before, writes[..i])
      {
        Stage(writes[i]);
        ApplyConcat(before, writes[..i], [writes[i]]);
        assert writes[..i] + [writes[i]] == writes[..i + 1];
        i := i + 1;
      }
      assert writes[..i] == writes;
      CycleEnd();
    }
  }

  /** memcpy between two buffers of one size. */
  method CopyBuffer(src: array<byte>, dst: array<byte>)
    requires src != dst && src.Length == dst.Length
    modifies dst
    ensures dst[..] == src[..]
  {
    var i := 0;
    while i < src.Length
      invariant 0 <= i <= src.Length
      invariant dst[..i] == src[..i]
    {
      dst[i] := src[i];
      i := i + 1;
    }
  }
}
