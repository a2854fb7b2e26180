/**
 The two input buffers of the EtherCAT backend (backends/ethercat/ec_backend.c:362-374, 483-487, 657-677,
 701-730): RT copies the I/O map into the buffer that is not published, byte by byte, then publishes its
 index; the PLC latches the published index at cycle_begin and reads that buffer for the whole cycle.
 */
module InputSnapshot {
  import opened Words

  type Image = seq<byte>

  datatype Rt =
    | RtIdle
    | RtCopying(next: nat, copied: nat)

  /**
   Histories: `completed` lists every complete copy RT has published, `indices` the indices it published,
   `snapshot` is what the latched buffer held when it was latched, `publications` counts RT's
   publications since, and `overrun` tells that RT began a copy after the first of them.
   */
  datatype State = State(
    size: nat,
    buffers: seq<Image>,
    active: nat,
    iomap: Image,
    rt: Rt,
    latched: nat,
    completed: seq<Image>,
    indices: seq<nat>,
    snapshot: Image,
    publications: nat,
    overrun: bool
  )

  datatype Action =
    | Receive(image: Image)
    | RtBegin
    | RtCopyByte
    | RtPublish
    | Latch

  ghost predicate Shape(s: State) {
    && |s.buffers| == 2 && |s.buffers[0]| == |s.buffers[1]| == |s.iomap| == s.size
    && s.active < 2 && s.latched < 2
    && (s.rt.RtCopying? ==> s.rt.next < 2 && s.rt.copied <= s.size)
  }

  ghost predicate Initial(s: State) {
    && Shape(s) && s.active == 0 && s.latched == 0 && s.rt.RtIdle?
    && s.completed == [s.buffers[0]] && s.indices == [0]
    && s.snapshot == s.buffers[0] && s.publications == 0 && !s.overrun
  }

  ghost function Step(s: State, a: Action): (t: State)
    requires Shape(s)
    ensures Shape(t)
  {
    match a
    case Receive(image) =>
      if s.rt.RtIdle? && |image| == s.size then s.(iomap := image) else s
    case RtBegin =>
      if s.rt.RtIdle? then s.(rt := RtCopying(1 - s.active, 0), overrun := s.overrun || s.publications > 0) else s
    case RtCopyByte =>
      if s.rt.RtCopying? && s.rt.copied < s.size then
        var r := s.rt;
        s.(buffers := s.buffers[r.next := s.buffers[r.next][r.copied := s.iomap[r.copied]]],
           rt := r.(copied := r.copied + 1))
      else s
    case RtPublish =>
      if s.rt.RtCopying? && s.rt.copied == s.size then
        s.(active := s.rt.next, rt := RtIdle, completed := s.completed + [s.iomap],
           indices := s.indices + [s.rt.next], publications := s.publications + 1)
      else s
    case Latch =>
      s.(latched := s.active, snapshot := s.buffers[s.active], publications := 0, overrun := false)
  }

  ghost function Run(s: State, acts: seq<Action>): (t: State)
    requires Shape(s)
    ensures Shape(t)
    decreases |acts|
  {
    if acts == [] then s else Run(Step(s, acts[0]), acts[1..])
  }

  ghost predicate Invariant(s: State) {
    && Shape(s)
    && s.completed != [] && s.buffers[s.active] == s.completed[|s.completed| - 1]
    && s.indices != [] && s.active == s.indices[|s.indices| - 1]
    && (forall i :: 0 <= i < |s.indices| ==> s.indices[i] < 2)
    && (forall i :: 0 < i < |s.indices| ==> s.indices[i] + s.indices[i - 1] == 1)
    && (s.rt.RtCopying? ==> s.rt.next == 1 - s.active && s.buffers[s.rt.next][..s.rt.copied] == s.iomap[..s.rt.copied])
    && s.snapshot in s.completed
    && (s.publications == 0 ==> s.latched == s.active && !s.overrun)
    && (!s.overrun ==>
          && s.buffers[s.latched] == s.snapshot && s.publications <= 1
          && (s.publications == 1 ==> s.latched == 1 - s.active && s.rt.RtIdle?))
  }

  lemma CopyKeepsInvariant(s: State)
    requires Invariant(s)
    ensures Invariant(Step(s, RtCopyByte))
  {
    var t := Step(s, RtCopyByte);
    if t != s {
      var k := s.rt.copied;
      assert t.buffers[t.rt.next][..k + 1] == t.iomap[..k + 1];
    }
  }

  lemma PublishKeepsInvariant(s: State)
    requires Invariant(s)
    ensures Invariant(Step(s, RtPublish))
  {
    var t := Step(s, RtPublish);
    if t != s {
      assert t.buffers[t.active] == s.iomap;
      assert t.completed[|t.completed| - 1] == s.iomap;
      assert s.completed <= t.completed;
      assert forall i :: 0 <= i < |s.completed| ==> t.completed[i] == s.completed[i];
    }
  }

  lemma StepKeepsInvariant(s: State, a: Action)
    requires Invariant(s)
    ensures Invariant(Step(s, a))
  {
    match a
    case RtCopyByte => CopyKeepsInvariant(s);
    case RtPublish => PublishKeepsInvariant(s);
    case Latch =>
      assert s.completed[|s.completed| - 1] == Step(s, Latch).snapshot;
    case _ =>
  }

  lemma {:induction false} RunKeepsInvariant(s: State, acts: seq<Action>)
    requires Invariant(s)
    ensures Invariant(Run(s, acts))
    decreases |acts|
  {
    hide Step;
    if acts != [] {
      StepKeepsInvariant(s, acts[0]);
      RunKeepsInvariant(Step(s, acts[0]), acts[1..]);
    }
  }

  /**
   In every interleaving the latched buffer is a complete RT copy and stays byte for byte what it was at the
   latch, until RT begins a copy after its first publication since.
   */
  lemma SnapshotIsStable(s: State, acts: seq<Action>)
    requires Initial(s)
    ensures var t := Run(s, acts);
      t.snapshot in t.completed && (!t.overrun ==> t.buffers[t.latched] == t.snapshot)
  {
    RunKeepsInvariant(s, acts);
  }

  /** The bound is exact: the copy begun after that publication goes into the latched buffer. */
  lemma OverrunWritesLatchedBuffer(s: State)
    requires Invariant(s) && s.rt.RtIdle? && s.publications == 1 && !s.overrun
    ensures Step(s, RtBegin).overrun && Step(s, RtBegin).rt.next == s.latched
  {
  }

  /** Its first byte can already differ from the snapshot, so no longer promise holds for any such state. */
  lemma OverrunBreaksSnapshot(s: State) returns (acts: seq<Action>)
    requires Invariant(s) && s.rt.RtIdle? && s.publications == 1 && !s.overrun && s.size > 0
    ensures |acts| == 3 && acts[1] == RtBegin && acts[2] == RtCopyByte
    ensures Run(s, acts).latched == s.latched && Run(s, acts).snapshot == s.snapshot
    ensures Run(s, acts).buffers[s.latched] != s.snapshot
  {
    var other: byte := if s.snapshot[0] == 0 then 1 else 0;
    var receive := Receive(seq(s.size, _ => other));
    acts := [receive, RtBegin, RtCopyByte];
    var s1 := Step(s, receive);
    var s2 := Step(s1, RtBegin);
    var s3 := Step(s2, RtCopyByte);
    assert s3.buffers[s.latched][0] == other;
    hide Step;
    assert acts[1..] == [RtBegin, RtCopyByte] && acts[1..][1..] == [RtCopyByte] && acts[1..][1..][1..] == [];
    assert Run(s, acts) == Run(s1, acts[1..]);
    assert Run(s1, acts[1..]) == Run(s2, acts[1..][1..]);
    assert Run(s2, [RtCopyByte]) == Run(s3, []);
  }

  /** Published indices stay in {0, 1} and alternate, and a published buffer is a whole copy. */
  lemma PublishedIndicesAlternate(s: State, acts: seq<Action>)
    requires Initial(s)
    ensures var t := Run(s, acts);
      && (forall i :: 0 <= i < |t.indices| ==> t.indices[i] == i % 2)
      && t.completed != [] && t.buffers[t.active] == t.completed[|t.completed| - 1]
  {
    RunKeepsInvariant(s, acts);
    FirstIndexStays(s, acts);
    var indices := Run(s, acts).indices;
    assert indices[0] == 0;
    forall i | 0 <= i < |indices| ensures indices[i] == i % 2 {
      Alternation(indices, i);
    }
  }

  lemma {:induction false} Alternation(indices: seq<nat>, i: nat)
    requires i < |indices| && indices[0] == 0
    requires forall k :: 0 < k < |indices| ==> indices[k] + indices[k - 1] == 1
    ensures indices[i] == i % 2
  {
    if i > 0 {
      Alternation(indices, i - 1);
    }
  }

  lemma {:induction false} FirstIndexStays(s: State, acts: seq<Action>)
    requires Shape(s) && s.indices != []
    ensures s.indices <= Run(s, acts).indices
    decreases |acts|
  {
    if acts != [] {
      FirstIndexStays(Step(s, acts[0]), acts[1..]);
    }
  }

  // ---------------------------------------------------------------- the code on one thread

  /** The input half of EthercatDevice_t. */
  class InputDevice {
    const in0: array<byte>
    const in1: array<byte>

    ghost predicate Ok() {
      in0 != in1 && in0.Length == in1.Length
    }

    function Buffer(index: int): array<byte> {
      if index == 0 then in0 else in1
    }

    constructor (size: nat)
      ensures Ok() && fresh(in0) && fresh(in1) && in0.Length == size
    {
      in0 := new byte[size](_ => 0);
      in1 := new byte[size](_ => 0);
    }
  }

  /** What the I/O map holds for one device, which may have no window in it. */
  datatype Window = Unmapped | Mapped(bytes: Image)

  ghost function Arrays(devices: seq<InputDevice>): set<object> {
    (set d | d in devices :: d.in0) + (set d | d in devices :: d.in1)
  }

  /** No two devices share a buffer. */
  ghost predicate Apart(devices: seq<InputDevice>) {
    && (forall d :: d in devices ==> d.Ok())
    && forall i, j :: 0 <= i < j < |devices| ==>
        && devices[i].in0 != devices[j].in0 && devices[i].in0 != devices[j].in1
        && devices[i].in1 != devices[j].in0 && devices[i].in1 != devices[j].in1
  }

  /** Every window is as long as the buffers of its device. */
  ghost predicate Fits(devices: seq<InputDevice>, windows: seq<Window>) {
    && |windows| == |devices|
    && forall d :: 0 <= d < |devices| && windows[d].Mapped? ==> |windows[d].bytes| == devices[d].in0.Length
  }

  /** What every device's buffer of the index holds. */
  ghost function Images(devices: seq<InputDevice>, index: int): (r: seq<Image>)
    reads Arrays(devices)
    ensures |r| == |devices|
  {
    seq(|devices|, d requires 0 <= d < |devices| reads Arrays(devices) => devices[d].Buffer(index)[..])
  }

  /** The I/O map's bytes for mapped devices; an unmapped one keeps what it had. */
  ghost function Received(kept: seq<Image>, windows: seq<Window>): (r: seq<Image>)
    requires |kept| == |windows|
    ensures |r| == |kept|
  {
    seq(|kept|, d requires 0 <= d < |kept| => if windows[d].Mapped? then windows[d].bytes else kept[d])
  }

  lemma ReceivedAt(kept: seq<Image>, windows: seq<Window>, d: nat)
    requires |kept| == |windows| && d < |kept|
    ensures Received(kept, windows)[d] == if windows[d].Mapped? then windows[d].bytes else kept[d]
  {
  }

  lemma TakenNext(kept: seq<Image>, received: seq<Image>, d: nat)
    requires |kept| == |received| && d < |kept|
    ensures (received[..d] + kept[d..])[d] == kept[d]
    ensures (received[..d] + kept[d..])[d := received[d]] == received[..d + 1] + kept[d + 1..]
  {
  }

  /** One device of ethercat_copy_iomap_to_in. */
  method CopyDevice(devices: seq<InputDevice>, d: nat, next: int, window: Window)
    requires Apart(devices) && d < |devices| && 0 <= next <= 1
    requires window.Mapped? ==> |window.bytes| == devices[d].in0.Length
    modifies Arrays(devices)
    ensures Images(devices, 1 - next) == old(Images(devices, 1 - next))
    ensures Images(devices, next)
         == old(Images(devices, next))[d := if window.Mapped? then window.bytes else old(Images(devices, next))[d]]
  {
    if window.Mapped? {
      CopyBytes(window.bytes, devices[d].Buffer(next));
    }
  }

  method CopyBytes(src: Image, dst: array<byte>)
    requires |src| == dst.Length
    modifies dst
    ensures dst[..] == src
  {
    var i := 0;
    while i < |src|
      invariant 0 <= i <= |src|
      invariant dst[..i] == src[..i]
    {
      dst[i] := src[i];
      i := i + 1;
    }
  }

  /** ethercat_copy_iomap_to_in */
  method CopyIomapToIn(devices: seq<InputDevice>, next: int, windows: seq<Window>)
    requires Apart(devices) && Fits(devices, windows) && 0 <= next <= 1
    modifies Arrays(devices)
    ensures Images(devices, 1 - next) == old(Images(devices, 1 - next))
    ensures Images(devices, next) == Received(old(Images(devices, next)), windows)
  {
    hide Images, Apart, Arrays, Received;
    ghost var kept := Images(devices, next);
    ghost var received := Received(kept, windows);
    var d := 0;
    while d < |devices|
      invariant 0 <= d <= |devices|
      invariant Images(devices, 1 - next) == old(Images(devices, 1 - next))
      invariant Images(devices, next) == received[..d] + kept[d..]
    {
      ReceivedAt(kept, windows, d);
      TakenNext(kept, received, d);
      CopyDevice(devices, d, next, windows[d]);
      d := d + 1;
    }
  }

  /** The input half of EthercatDriver_t; the two indices are whatever 32-bit integers memory holds. */
  class InputSide {
    const devices: seq<InputDevice>
    var active: int
    var plcIndex: int

    /** The index that a load with fallback 0 makes of a stored one. */
    static function Repaired(index: int): int {
      if 0 <= index <= 1 then index else 0
    }

    /** What RT has published, what it will write next, and what the PLC reads during its cycle. */
    ghost function Published(): seq<Image>
      reads this, Arrays(devices)
    {
      Images(devices, Repaired(active))
    }

    ghost function Spare(): seq<Image>
      reads this, Arrays(devices)
    {
      Images(devices, 1 - Repaired(active))
    }

    ghost function Latched(): seq<Image>
      reads this, Arrays(devices)
    {
      Images(devices, if 0 <= plcIndex <= 1 then plcIndex else Repaired(active))
    }

    constructor (devices: seq<InputDevice>)
      ensures this.devices == devices && active == 0 && plcIndex == 0
      ensures Latched() == Published() == Images(devices, 0)
    {
      this.devices := devices;
      active, plcIndex := 0, 0;
    }

    /** ethercat_load_buffer_index on the published index, which it repairs in place. */
    method LoadActive(fallback: int) returns (index: int)
      requires fallback == 0 || fallback == 1
      modifies this`active
      ensures index == active == if 0 <= old(active) <= 1 then old(active) else fallback
    {
      index := active;
      if index < 0 || index > 1 {
        index := fallback;
        active := index;
      }
    }

    /** The RT side of one cycle: copy the I/O map into the spare buffers, then publish them. */
    method PublishInputs(windows: seq<Window>)
      requires Apart(devices) && Fits(devices, windows)
      modifies this`active, Arrays(devices)
      ensures active == 1 - Repaired(old(active)) && plcIndex == old(plcIndex)
      ensures Published() == Received(old(Spare()), windows) && Spare() == old(Published())
    {
      hide Images, Received, Apart;
      var current := LoadActive(0);
      CopyIomapToIn(devices, 1 - current, windows);
      active := 1 - current;
    }

    /**
     The first two statements of ethercat_cycle_begin: from here on the PLC reads the images published now. A published
     index out of range is repaired to 0.
     */
    method LatchInputs()
      modifies this`active, this`plcIndex
      ensures plcIndex == active == Repaired(old(active))
      ensures Latched() == Published() == old(Published()) && Spare() == old(Spare())
    {
      var index := LoadActive(0);
      plcIndex := index;
    }

    /**
     ethercat_get_input_data: nothing for an unbound device, else the array that holds the device's latched image. A
     latched index out of range is replaced by the published one.
     */
    method GetInputData(deviceIndex: nat) returns (data: array?<byte>)
      modifies this`active, this`plcIndex
      ensures data == null <==> deviceIndex >= |devices|
      ensures data != null ==> data in Arrays(devices) && data[..] == old(Latched())[deviceIndex] && 0 <= plcIndex <= 1
      ensures Latched() == old(Latched()) && Published() == old(Published())
    {
      if deviceIndex >= |devices| {
        return null;
      }
      var index := plcIndex;
      if index < 0 || index > 1 {
        index := LoadActive(0);
        plcIndex := index;
      }
      data := devices[deviceIndex].Buffer(index);
    }

    /** A PLC cycle overtaken by one RT publication still reads what had been published when it began. */
    method ReadAcrossPublication(deviceIndex: nat, windows: seq<Window>) returns (data: array?<byte>)
      requires Apart(devices) && Fits(devices, windows) && deviceIndex < |devices|
      modifies this`active, this`plcIndex, Arrays(devices)
      ensures data != null && data[..] == old(Published())[deviceIndex]
      ensures Published() == Received(old(Spare()), windows)
    {
      hide Images, Received, Apart, Arrays;
      LatchInputs();
      PublishInputs(windows);
      assert Latched() == Spare();
      data := GetInputData(deviceIndex);
    }
  }
}
