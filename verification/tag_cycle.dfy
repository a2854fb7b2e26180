/**
 From a tag to the bus: the tasks of one PLC cycle write output tags (core/tag/tag_api.c), and the cycle publishes what
 they wrote (main.c:29-98). A backend's output buffer is the concatenation of its devices' images.
 */
module TagCycle {
  import opened OutputBuffers
  import opened PlcCycle
  import T = Tags
  import opened Words

  type Devices = seq<seq<byte>>

  // ---------------------------------------------------------------- device images in one buffer

  function Concat(devices: Devices): seq<byte> {
    if devices == [] then [] else Concat(devices[..|devices| - 1]) + devices[|devices| - 1]
  }

  /** Where the image of device `d` begins. */
  function Base(devices: Devices, d: nat): nat
    requires d <= |devices|
  {
    |Concat(devices[..d])|
  }

  /** The part of a backend's buffer that belongs to device `d`. */
  ghost function Window(image: seq<byte>, devices: Devices, d: nat): seq<byte>
    requires d < |devices| && Base(devices, d) + |devices[d]| <= |image|
  {
    image[Base(devices, d)..Base(devices, d) + |devices[d]|]
  }

  function Flat(outputs: T.Images): (r: seq<seq<byte>>)
    ensures |r| == |outputs|
  {
    seq(|outputs|, b requires 0 <= b < |outputs| => Concat(outputs[b]))
  }

  /** The image with `bytes` stored at `at`. */
  ghost function Spliced(image: seq<byte>, at: nat, bytes: seq<byte>): (r: seq<byte>)
    requires at + |bytes| <= |image|
    ensures |r| == |image|
  {
    image[..at] + bytes + image[at + |bytes|..]
  }

  lemma ConcatLast(front: Devices, last: seq<byte>)
    ensures Concat(front + [last]) == Concat(front) + last
  {
    assert (front + [last])[..|front|] == front;
  }

  /** Appending to the whole appends behind the window. */
  lemma SpliceBeforeLast(whole: seq<byte>, at: nat, image: seq<byte>, last: seq<byte>)
    requires at + |image| <= |whole|
    ensures Spliced(whole, at, image) + last == Spliced(whole + last, at, image)
    ensures (whole + last)[at..at + |image|] == whole[at..at + |image|]
  {
  }

  /** The buffer around the image of one device, whatever that image is. */
  lemma {:induction false} ConcatAround(devices: Devices, d: nat, image: seq<byte>)
    requires d < |devices| && |image| == |devices[d]|
    ensures var whole, at := Concat(devices), Base(devices, d);
      && at + |image| <= |whole|
      && Concat(devices[d := image]) == Spliced(whole, at, image)
      && whole[at..at + |image|] == devices[d]
    decreases |devices|
  {
    var n := |devices| - 1;
    var front, last := devices[..n], devices[n];
    assert devices == front + [last];
    hide Concat, Spliced;
    ConcatLast(front, last);
    if d == n {
      assert devices[d := image] == front + [image];
      ConcatLast(front, image);
    } else {
      ConcatAround(front, d, image);
      assert devices[d := image] == front[d := image] + [last];
      ConcatLast(front[d := image], last);
      assert front[..d] == devices[..d];
      SpliceBeforeLast(Concat(front), Base(front, d), image, last);
    }
  }

  /** Images of equal sizes begin at equal places. */
  lemma {:induction false} SameBase(a: Devices, b: Devices, d: nat)
    requires |a| == |b| && d <= |a| && forall i :: 0 <= i < |a| ==> |a[i]| == |b[i]|
    ensures Base(a, d) == Base(b, d)
  {
    if d > 0 {
      SameBase(a, b, d - 1);
      assert a[..d][..d - 1] == a[..d - 1] && b[..d][..d - 1] == b[..d - 1];
    }
  }

  // ---------------------------------------------------------------- one tag write, byte by byte

  /** The bytes that write_io_value stores into the staging buffers. */
  function StagedBy(mem: T.Memory, e: T.Entry, value: T.Bytes4): seq<Staged>
    requires e.ref.Io? && T.WriteIo(mem, e, value).Ok?
  {
    var b, d := e.ref.backend, e.ref.device;
    var at := Base(mem.outputs[b], d) + e.ref.offset;
    if e.typ == T.TBool then
      [Staged(b, Write(at, T.WithBit(mem.outputs[b][d][e.ref.offset], e.ref.bit, value[0] != 0)))]
    else
      StageBytes(b, at, value[..T.TypeSize(e.typ)])
  }

  function StageBytes(b: nat, at: nat, bytes: seq<byte>): (r: seq<Staged>)
    ensures |r| == |bytes|
  {
    seq(|bytes|, i requires 0 <= i < |bytes| => Staged(b, Write(at + i, bytes[i])))
  }

  ghost function ByteWrites(at: nat, bytes: seq<byte>): (r: seq<Write>)
    ensures |r| == |bytes|
  {
    seq(|bytes|, i requires 0 <= i < |bytes| => Write(at + i, bytes[i]))
  }

  lemma {:induction false} ByteWritesSplice(image: seq<byte>, at: nat, bytes: seq<byte>)
    requires at + |bytes| <= |image|
    ensures Apply(image, ByteWrites(at, bytes)) == Spliced(image, at, bytes)
    decreases |bytes|
  {
    var n := |bytes| - 1;
    if bytes == [] {
      assert ByteWrites(at, bytes) == [];
    } else {
      ByteWritesSplice(image, at, bytes[..n]);
      assert ByteWrites(at, bytes)[..n] == ByteWrites(at, bytes[..n]);
      var before := image[..at] + bytes[..n] + image[at + n..];
      assert before[at + n := bytes[n]] == image[..at] + bytes + image[at + |bytes|..];
    }
  }

  lemma {:induction false} WritesToBackend(b: nat, at: nat, bytes: seq<byte>, c: nat)
    ensures WritesTo(StageBytes(b, at, bytes), c) == if c == b then ByteWrites(at, bytes) else []
    decreases |bytes|
  {
    if bytes != [] {
      var n := |bytes| - 1;
      WritesToBackend(b, at, bytes[..n], c);
      assert StageBytes(b, at, bytes)[..n] == StageBytes(b, at, bytes[..n]);
      assert ByteWrites(at, bytes) == ByteWrites(at, bytes[..n]) + [Write(at + n, bytes[n])];
    }
  }

  lemma SpliceInside(whole: seq<byte>, base: nat, image: seq<byte>, offset: nat, bytes: seq<byte>)
    requires base + |image| <= |whole| && whole[base..base + |image|] == image && offset + |bytes| <= |image|
    ensures Spliced(whole, base, Spliced(image, offset, bytes)) == Spliced(whole, base + offset, bytes)
  {
    var left, right := Spliced(whole, base, Spliced(image, offset, bytes)), Spliced(whole, base + offset, bytes);
    forall k | 0 <= k < |whole| ensures left[k] == right[k] {
      if base <= k < base + |image| {
        assert whole[k] == image[k - base];
      }
    }
  }

  /** Storing bytes into the window of one device. */
  lemma {:induction false} DeviceSplice(devices: Devices, d: nat, offset: nat, bytes: seq<byte>)
    requires d < |devices| && offset + |bytes| <= |devices[d]|
    ensures Concat(devices[d := Spliced(devices[d], offset, bytes)])
         == Apply(Concat(devices), ByteWrites(Base(devices, d) + offset, bytes))
  {
    hide Concat, Base, ByteWrites, Spliced, Apply;
    var image, whole, base := devices[d], Concat(devices), Base(devices, d);
    ConcatAround(devices, d, Spliced(image, offset, bytes));
    ByteWritesSplice(whole, base + offset, bytes);
    SpliceInside(whole, base, image, offset, bytes);
  }

  /** One device's image replaced, one backend's buffer changed. */
  lemma FlatOfSet(outputs: T.Images, b: nat, d: nat, image: seq<byte>, c: nat)
    requires b < |outputs| && d < |outputs[b]| && c < |outputs|
    ensures Flat(T.SetImage(outputs, b, d, image))[c]
         == if c == b then Concat(outputs[b][d := image]) else Flat(outputs)[c]
  {
    hide Concat;
  }

  /** Bytes staged into one backend leave the others alone. */
  lemma StagedAt(images: seq<seq<byte>>, b: nat, at: nat, bytes: seq<byte>, c: nat)
    requires c < |images|
    ensures ApplyEach(images, StageBytes(b, at, bytes))[c]
         == if c == b then Apply(images[b], ByteWrites(at, bytes)) else images[c]
  {
    hide WritesTo, Apply, StageBytes, ByteWrites;
    WritesToBackend(b, at, bytes, c);
    if c != b {
      NoWrites(images[c]);
    }
  }

  lemma {:induction false} StageBytesSplice(outputs: T.Images, b: nat, d: nat, offset: nat, bytes: seq<byte>)
    requires b < |outputs| && d < |outputs[b]| && offset + |bytes| <= |outputs[b][d]|
    ensures Flat(T.SetImage(outputs, b, d, Spliced(outputs[b][d], offset, bytes)))
         == ApplyEach(Flat(outputs), StageBytes(b, Base(outputs[b], d) + offset, bytes))
  {
    hide Concat, Base, Spliced, WritesTo, Apply, ApplyEach, StageBytes, ByteWrites, T.SetImage;
    var at, changed := Base(outputs[b], d) + offset, Spliced(outputs[b][d], offset, bytes);
    SameLength(outputs, b, d, changed);
    forall c | 0 <= c < |outputs|
      ensures Flat(T.SetImage(outputs, b, d, changed))[c] == ApplyEach(Flat(outputs), StageBytes(b, at, bytes))[c]
    {
      FlatOfSet(outputs, b, d, changed, c);
      StagedAt(Flat(outputs), b, at, bytes, c);
      DeviceSplice(outputs[b], d, offset, bytes);
    }
  }

  lemma SameLength(outputs: T.Images, b: nat, d: nat, image: seq<byte>)
    requires b < |outputs| && d < |outputs[b]|
    ensures |T.SetImage(outputs, b, d, image)| == |outputs|
  {
  }

  lemma NoWrites(image: seq<byte>)
    ensures Apply(image, []) == image
  {
  }

  lemma WriteIoIsStaged(mem: T.Memory, e: T.Entry, value: T.Bytes4)
    requires e.ref.Io? && T.WriteIo(mem, e, value).Ok?
    ensures Flat(T.WriteIo(mem, e, value).value.outputs) == ApplyEach(Flat(mem.outputs), StagedBy(mem, e, value))
  {
    var b, d, offset := e.ref.backend, e.ref.device, e.ref.offset;
    var image := mem.outputs[b][d];
    var bytes := if e.typ == T.TBool then [T.WithBit(image[offset], e.ref.bit, value[0] != 0)] else value[..T.TypeSize(e.typ)];
    StageBytesSplice(mem.outputs, b, d, offset, bytes);
    assert T.Updated(image, e, value) == Spliced(image, offset, bytes);
    assert StagedBy(mem, e, value) == StageBytes(b, Base(mem.outputs[b], d) + offset, bytes);
    hide Flat, ApplyEach, Base, StageBytes, Spliced;
  }

  // ---------------------------------------------------------------- the writes of a whole cycle

  /** A call of tag_write; a task that gets an error code goes on. */
  datatype TagWrite = TagWrite(id: nat, input: seq<byte>, junk: T.Bytes4)

  function After(table: seq<T.Entry>, mem: T.Memory, w: TagWrite): T.Memory {
    match T.WriteTag(table, mem, w.id, w.input, w.junk)
    case Ok(u) => u
    case Err(_) => mem
  }

  function WriteAll(table: seq<T.Entry>, mem: T.Memory, ws: seq<TagWrite>): T.Memory {
    if ws == [] then mem else After(table, WriteAll(table, mem, ws[..|ws| - 1]), ws[|ws| - 1])
  }

  function StagedByWrite(table: seq<T.Entry>, mem: T.Memory, w: TagWrite): seq<Staged> {
    if T.WriteTag(table, mem, w.id, w.input, w.junk).Err? then []
    else
      var e := T.Resolve(table, w.id, true, 0).value;
      if e.ref.Io? then StagedBy(mem, e, T.Partial(w.input, T.TypeSize(e.typ), w.junk)) else []
  }

  function StagedByAll(table: seq<T.Entry>, mem: T.Memory, ws: seq<TagWrite>): seq<Staged> {
    if ws == [] then []
    else
      var before := ws[..|ws| - 1];
      StagedByAll(table, mem, before) + StagedByWrite(table, WriteAll(table, mem, before), ws[|ws| - 1])
  }

  lemma WriteIsStaged(table: seq<T.Entry>, mem: T.Memory, w: TagWrite)
    ensures Flat(After(table, mem, w).outputs) == ApplyEach(Flat(mem.outputs), StagedByWrite(table, mem, w))
  {
    NothingStaged(Flat(mem.outputs));
    if T.WriteTag(table, mem, w.id, w.input, w.junk).Ok? {
      var e := T.Resolve(table, w.id, true, 0).value;
      if e.ref.Io? {
        WriteIoIsStaged(mem, e, T.Partial(w.input, T.TypeSize(e.typ), w.junk));
      }
    }
    hide Flat, ApplyEach, StagedBy, T.WriteIo, T.Resolve;
  }

  lemma {:induction false} WritesToConcat(a: seq<Staged>, b: seq<Staged>, c: nat)
    ensures WritesTo(a + b, c) == WritesTo(a, c) + WritesTo(b, c)
    decreases |b|
  {
    if b == [] {
      assert a + b == a;
    } else {
      WritesToConcat(a, b[..|b| - 1], c);
      assert (a + b)[..|a + b| - 1] == a + b[..|b| - 1];
    }
  }

  lemma ApplyEachConcat(images: seq<seq<byte>>, a: seq<Staged>, b: seq<Staged>)
    ensures ApplyEach(images, a + b) == ApplyEach(ApplyEach(images, a), b)
  {
    hide Apply, WritesTo;
    forall c | 0 <= c < |images| ensures ApplyEach(images, a + b)[c] == ApplyEach(ApplyEach(images, a), b)[c] {
      WritesToConcat(a, b, c);
      ApplyConcat(images[c], WritesTo(a, c), WritesTo(b, c));
    }
  }

  lemma {:induction false} WritesAreStaged(table: seq<T.Entry>, mem: T.Memory, ws: seq<TagWrite>)
    ensures Flat(WriteAll(table, mem, ws).outputs) == ApplyEach(Flat(mem.outputs), StagedByAll(table, mem, ws))
  {
    hide Flat, ApplyEach, After, StagedByWrite;
    if ws == [] {
      NothingStaged(Flat(mem.outputs));
    } else {
      var before := ws[..|ws| - 1];
      WritesAreStaged(table, mem, before);
      var u := WriteAll(table, mem, before);
      WriteIsStaged(table, u, ws[|ws| - 1]);
      ApplyEachConcat(Flat(mem.outputs), StagedByAll(table, mem, before), StagedByWrite(table, u, ws[|ws| - 1]));
    }
  }

  // ---------------------------------------------------------------- the cycle

  /** The image sizes of the memory stay what they are. */
  lemma {:induction false} WritesKeepShape(table: seq<T.Entry>, mem: T.Memory, ws: seq<TagWrite>)
    ensures T.SameShape(mem, WriteAll(table, mem, ws))
  {
    if ws != [] {
      var before := ws[..|ws| - 1];
      WritesKeepShape(table, mem, before);
      var u, w := WriteAll(table, mem, before), ws[|ws| - 1];
      if T.WriteTag(table, u, w.id, w.input, w.junk).Ok? {
        T.WriteKeepsShape(table, u, w.id, w.input, w.junk);
      }
      hide T.WriteTag;
    }
  }

  /** Only backends with a device image are staged into. */
  ghost predicate StagesInto(staged: seq<Staged>, outputs: T.Images) {
    forall k :: 0 <= k < |staged| ==> staged[k].backend < |outputs| && outputs[staged[k].backend] != []
  }

  lemma OneWriteStagesInto(table: seq<T.Entry>, mem: T.Memory, w: TagWrite)
    ensures StagesInto(StagedByWrite(table, mem, w), mem.outputs)
  {
    hide T.Resolve, T.Updated, Base;
  }

  lemma {:induction false} AllStageInto(table: seq<T.Entry>, mem: T.Memory, ws: seq<TagWrite>)
    ensures StagesInto(StagedByAll(table, mem, ws), mem.outputs)
  {
    hide StagedByWrite, After;
    if ws != [] {
      var before := ws[..|ws| - 1];
      AllStageInto(table, mem, before);
      WritesKeepShape(table, mem, before);
      OneWriteStagesInto(table, WriteAll(table, mem, before), ws[|ws| - 1]);
    }
  }

  /** The memory's output images are the published ones; a missing driver has no device. */
  ghost predicate Mapped(backends: seq<OutputSide?>, outputs: T.Images)
    reads Objects(backends), Buffers(backends)
  {
    && Published(backends) == Flat(outputs)
    && forall b :: 0 <= b < |outputs| && outputs[b] != [] ==> backends[b] != null
  }

  /**
   One PLC cycle whose tasks make these tag writes: the published buffers afterwards are the device images that the
   writes make of the ones published before, whatever the RPC poll has staged.
   */
  method CycleOfTags(backends: seq<OutputSide?>, table: seq<T.Entry>, mem: T.Memory, rpc: seq<Staged>, tasks: seq<TagWrite>)
    requires Valid(backends) && Mapped(backends, mem.outputs)
    requires forall k :: 0 <= k < |rpc| ==> rpc[k].backend < |backends| && backends[rpc[k].backend] != null
    modifies Objects(backends), Buffers(backends)
    ensures Valid(backends) && Mapped(backends, WriteAll(table, mem, tasks).outputs)
  {
    WritesAreStaged(table, mem, tasks);
    AllStageInto(table, mem, tasks);
    WritesKeepShape(table, mem, tasks);
    hide Valid, Published, ApplyEach, Flat, WriteAll;
    Cycle(backends, rpc, StagedByAll(table, mem, tasks));
  }

  // ---------------------------------------------------------------- the value of a tag on the bus

  /** What a reader of the published buffers finds at an output tag's place. */
  ghost function PublishedValue(images: seq<seq<byte>>, layout: T.Images, e: T.Entry): T.Result<seq<byte>>
    requires e.ref.Io? && e.ref.backend < |layout| == |images| && e.ref.device < |layout[e.ref.backend]|
    requires |images[e.ref.backend]| == |Concat(layout[e.ref.backend])|
  {
    ConcatAround(layout[e.ref.backend], e.ref.device, layout[e.ref.backend][e.ref.device]);
    T.ReadImage(Window(images[e.ref.backend], layout[e.ref.backend], e.ref.device), e)
  }

  lemma SameSizes(a: Devices, b: Devices)
    requires |a| == |b| && forall i :: 0 <= i < |a| ==> |a[i]| == |b[i]|
    ensures |Concat(a)| == |Concat(b)|
  {
    SameBase(a, b, |a|);
    assert a[..|a|] == a && b[..|b|] == b;
  }

  /** Reading the concatenated images is reading the device's own. */
  lemma PublishedReads(mem: T.Memory, u: T.Memory, e: T.Entry)
    requires T.SameShape(mem, u) && e.ref.Io? && e.ref.dir == T.Out
    requires e.ref.backend < |mem.outputs| && e.ref.device < |mem.outputs[e.ref.backend]|
    ensures |Flat(u.outputs)[e.ref.backend]| == |Concat(mem.outputs[e.ref.backend])|
    ensures PublishedValue(Flat(u.outputs), mem.outputs, e) == T.ReadIo(u, e)
  {
    var b, d := e.ref.backend, e.ref.device;
    SameSizes(mem.outputs[b], u.outputs[b]);
    SameBase(mem.outputs[b], u.outputs[b], d);
    ConcatAround(u.outputs[b], d, u.outputs[b][d]);
    hide Concat, Base, T.ReadImage;
  }

  /** Every later write fails, or touches other storage. */
  ghost predicate LaterWritesElsewhere(table: seq<T.Entry>, ws: seq<TagWrite>, e: T.Entry) {
    forall k :: 0 <= k < |ws| ==>
      var w := T.Resolve(table, ws[k].id, true, 0);
      w.Some? ==> T.Disjoint(T.FootprintOf(w.value), T.FootprintOf(e))
  }

  lemma {:induction false} LaterWritesKeepValue(table: seq<T.Entry>, mem: T.Memory, ws: seq<TagWrite>, e: T.Entry)
    requires LaterWritesElsewhere(table, ws, e)
    ensures T.ReadEntry(WriteAll(table, mem, ws), e) == T.ReadEntry(mem, e)
  {
    if ws != [] {
      var before, w := ws[..|ws| - 1], ws[|ws| - 1];
      LaterWritesKeepValue(table, mem, before, e);
      OneWriteKeepsValue(table, WriteAll(table, mem, before), w, e);
      hide After, T.ReadEntry;
    }
  }

  lemma OneWriteKeepsValue(table: seq<T.Entry>, mem: T.Memory, w: TagWrite, e: T.Entry)
    requires var r := T.Resolve(table, w.id, true, 0); r.Some? ==> T.Disjoint(T.FootprintOf(r.value), T.FootprintOf(e))
    ensures T.ReadEntry(After(table, mem, w), e) == T.ReadEntry(mem, e)
  {
    if T.WriteTag(table, mem, w.id, w.input, w.junk).Ok? {
      var r := T.Resolve(table, w.id, true, 0).value;
      T.EntryFrame(mem, r, T.Partial(w.input, T.TypeSize(r.typ), w.junk), e);
    }
    hide T.WriteEntry, T.ReadEntry, T.Resolve, T.Disjoint, T.FootprintOf;
  }

  lemma {:induction false} WriteAllConcat(table: seq<T.Entry>, mem: T.Memory, a: seq<TagWrite>, b: seq<TagWrite>)
    ensures WriteAll(table, mem, a + b) == WriteAll(table, WriteAll(table, mem, a), b)
    decreases |b|
  {
    hide After;
    if b == [] {
      assert a + b == a;
    } else {
      WriteAllConcat(table, mem, a, b[..|b| - 1]);
      assert (a + b)[..|a + b| - 1] == a + b[..|b| - 1];
    }
  }

  /**
   End to end: a task's successful write of an output tag, which no later write of the cycle overlaps, is what the buffers
   published by that cycle hold at the tag's place, byte for byte or bit for bit.
   */
  lemma TagReachesPublishedBuffer(table: seq<T.Entry>, mem: T.Memory, before: seq<TagWrite>, w: TagWrite, after: seq<TagWrite>)
    requires T.WriteTag(table, WriteAll(table, mem, before), w.id, w.input, w.junk).Ok?
    requires var e := T.Resolve(table, w.id, true, 0).value;
      && e.ref.Io? && (e.typ == T.TBool ==> w.input[0] == 0 || w.input[0] == 1)
      && LaterWritesElsewhere(table, after, e)
    ensures var e, u := T.Resolve(table, w.id, true, 0).value, WriteAll(table, mem, before + [w] + after);
      && e.ref.backend < |mem.outputs| == |u.outputs| && e.ref.device < |mem.outputs[e.ref.backend]|
      && |Flat(u.outputs)[e.ref.backend]| == |Concat(mem.outputs[e.ref.backend])|
      && PublishedValue(Flat(u.outputs), mem.outputs, e) == T.Ok(w.input[..T.TypeSize(e.typ)])
  {
    var e := T.Resolve(table, w.id, true, 0).value;
    var all := before + [w] + after;
    var s := WriteAll(table, mem, before);
    var t := WriteAll(table, mem, before + [w]);
    assert (before + [w])[..|before|] == before;
    assert t == After(table, s, w);
    WritesKeepShape(table, mem, before);
    WritesKeepShape(table, mem, all);
    WriteAllConcat(table, mem, before + [w], after);
    LaterWritesKeepValue(table, t, after, e);
    WrittenValue(table, s, w);
    PublishedReads(mem, WriteAll(table, mem, all), e);
  }

  lemma WrittenValue(table: seq<T.Entry>, mem: T.Memory, w: TagWrite)
    requires T.WriteTag(table, mem, w.id, w.input, w.junk).Ok?
    requires var e := T.Resolve(table, w.id, true, 0).value;
      e.ref.Io? && (e.typ == T.TBool ==> w.input[0] == 0 || w.input[0] == 1)
    ensures var e := T.Resolve(table, w.id, true, 0).value;
      && T.ReadEntry(After(table, mem, w), e) == T.Ok(w.input[..T.TypeSize(e.typ)])
      && e.ref.dir == T.Out && e.ref.backend < |mem.outputs| && e.ref.device < |mem.outputs[e.ref.backend]|
  {
    var e := T.Resolve(table, w.id, true, 0).value;
    var value := T.Partial(w.input, T.TypeSize(e.typ), w.junk);
    T.EntryReadsBack(mem, e, value, e);
    assert value[..T.TypeSize(e.typ)] == w.input[..T.TypeSize(e.typ)];
    hide T.ReadEntry, T.Resolve, T.Updated;
  }
}
