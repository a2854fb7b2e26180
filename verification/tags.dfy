/**
 The tag layer: the append-only tag table (core/tag/tag_table.c), bounded alias resolution and the typed
 accessors over the process store, the HMI store and the I/O images (core/tag/tag_api.c). Values are
 bytes: a slot's union is four bytes, a multi-byte I/O value is copied byte for byte, REAL is opaque.
 */
module Tags {
  import opened Words

  datatype Option<+T> = None | Some(value: T)

  datatype Result<+T> = Ok(value: T) | Err(code: int)

  const EINVAL: int := -22
  const ERANGE: int := -34

  const MAX_TAGS: nat := 256
  const NAME_STORAGE: nat := 128
  const STORE_SIZE: nat := 64

  /** TagType_t; TOther is any value outside the enumeration. */
  datatype TagType = TBool | TU8 | TU16 | TU32 | TReal | TOther

  datatype Dir = In | Out

  /** The union of a table entry, with its kind. Ids start at 1; access 0 is read-only. */
  datatype Ref =
    | Io(backend: u16, device: u16, dir: Dir, offset: u32, bit: nat)
    | Proc(index: nat)
    | Alias(target: nat, access: nat)
    | HmiVar(index: nat, access: nat)

  datatype Entry = Entry(name: string, typ: TagType, ref: Ref)

  type Bytes4 = s: seq<byte> | |s| == 4 witness [0, 0, 0, 0]

  /** ProcValue_t and HmiValue_t. */
  datatype Slot = Slot(typ: TagType, v: Bytes4)

  /** Per backend, per device. */
  type Images = seq<seq<seq<byte>>>

  /** Everything tag_read and tag_write look at besides the table. */
  datatype Memory = Memory(proc: seq<Slot>, hmi: seq<Slot>, inputs: Images, outputs: Images)

  function TypeSize(t: TagType): nat {
    match t
    case TBool => 1
    case TU8 => 1
    case TU16 => 2
    case TU32 => 4
    case TReal => 4
    case TOther => 0
  }

  // ---------------------------------------------------------------- table

  function Get(table: seq<Entry>, id: nat): Option<Entry> {
    if id == 0 || id > |table| then None else Some(table[id - 1])
  }

  ghost predicate HasName(table: seq<Entry>, name: string) {
    exists i :: 0 <= i < |table| && table[i].name == name
  }

  ghost function AddEntry(table: seq<Entry>, e: Entry): Option<seq<Entry>> {
    if e.name == "" || HasName(table, e.name) || |table| >= MAX_TAGS || |e.name| >= NAME_STORAGE then None
    else Some(table + [e])
  }

  ghost predicate NamesUnique(table: seq<Entry>) {
    forall i, j :: 0 <= i < j < |table| ==> table[i].name != table[j].name
  }

  /** The id of the first entry with the name, 0 if there is none. */
  ghost function IdOf(table: seq<Entry>, name: string): (id: nat)
    ensures id <= |table|
  {
    if table == [] then 0
    else
      var n := |table|;
      var earlier := IdOf(table[..n - 1], name);
      if earlier != 0 then earlier else if table[n - 1].name == name then n else 0
  }

  lemma {:induction false} IdOfMeans(table: seq<Entry>, name: string)
    ensures IdOf(table, name) == 0 <==> !HasName(table, name)
    ensures IdOf(table, name) != 0 ==>
        table[IdOf(table, name) - 1].name == name && !HasName(table[..IdOf(table, name) - 1], name)
  {
    if table != [] {
      var front := table[..|table| - 1];
      IdOfMeans(front, name);
      if HasName(front, name) {
        var i :| 0 <= i < |front| && front[i].name == name;
        assert table[i].name == name;
      }
      var id := IdOf(front, name);
      if id != 0 {
        assert table[..id - 1] == front[..id - 1];
      }
    }
  }

  /** With unique names the id finds each entry again. */
  lemma IdOfEntry(table: seq<Entry>, i: nat)
    requires NamesUnique(table) && i < |table|
    ensures IdOf(table, table[i].name) == i + 1
  {
    IdOfMeans(table, table[i].name);
  }

  // ---------------------------------------------------------------- alias resolution

  /** resolve_entry */
  function Resolve(table: seq<Entry>, id: nat, forWrite: bool, depth: nat): Option<Entry>
    decreases 5 - depth
  {
    if depth > 4 then None
    else
      match Get(table, id)
      case None => None
      case Some(e) =>
        match e.ref
        case Alias(target, access) =>
          if (forWrite && access == 0) || target == 0 then None else Resolve(table, target, forWrite, depth + 1)
        case HmiVar(_, access) => if forWrite && access == 0 then None else Some(e)
        case _ => Some(e)
  }

  /** What the builder guarantees: an alias points to an earlier entry of its own type that is not I/O. */
  ghost predicate AliasesPointBack(table: seq<Entry>) {
    forall i {:trigger AliasOk(table, i)} :: 0 <= i < |table| ==> AliasOk(table, i)
  }

  ghost predicate AliasOk(table: seq<Entry>, i: nat)
    requires i < |table|
  {
    table[i].ref.Alias? ==>
      var target := table[i].ref.target;
      0 < target <= i && table[target - 1].typ == table[i].typ && !table[target - 1].ref.Io?
  }

  /** Resolution without a depth limit. */
  ghost function Chase(table: seq<Entry>, id: nat): Option<Entry>
    requires AliasesPointBack(table)
  {
    match Get(table, id)
    case None => None
    case Some(e) =>
      assert AliasOk(table, id - 1);
      if e.ref.Alias? then Chase(table, e.ref.target) else Some(e)
  }

  /** The number of alias links from `id` to its variable. */
  ghost function Hops(table: seq<Entry>, id: nat): nat
    requires AliasesPointBack(table)
  {
    match Get(table, id)
    case None => 0
    case Some(e) =>
      assert AliasOk(table, id - 1);
      if e.ref.Alias? then Hops(table, e.ref.target) + 1 else 0
  }

  /** Every alias link on the way, and the HMI variable at its end, is read-write. */
  ghost predicate AllWritable(table: seq<Entry>, id: nat)
    requires AliasesPointBack(table)
  {
    match Get(table, id)
    case None => true
    case Some(e) =>
      assert AliasOk(table, id - 1);
      match e.ref
      case Alias(target, access) => access != 0 && AllWritable(table, target)
      case HmiVar(_, access) => access != 0
      case _ => true
  }

  lemma {:induction false} ResolveAtDepth(table: seq<Entry>, id: nat, forWrite: bool, depth: nat)
    requires AliasesPointBack(table) && depth <= 4
    ensures Resolve(table, id, forWrite, depth)
         == if depth + Hops(table, id) <= 4 && (forWrite ==> AllWritable(table, id)) then Chase(table, id) else None
    decreases id
  {
    match Get(table, id)
    case None =>
    case Some(e) =>
      assert AliasOk(table, id - 1);
      if e.ref.Alias? && depth < 4 {
        ResolveAtDepth(table, e.ref.target, forWrite, depth + 1);
      }
  }

  /**
   The depth-limited resolver is unbounded resolution cut off beyond four hops; for a write it also
   demands that every alias link and the final HMI variable be read-write.
   */
  lemma ResolverAgreesWithinFourHops(table: seq<Entry>, id: nat, forWrite: bool)
    requires AliasesPointBack(table)
    ensures Resolve(table, id, forWrite, 0)
         == if Hops(table, id) <= 4 && (forWrite ==> AllWritable(table, id)) then Chase(table, id) else None
  {
    ResolveAtDepth(table, id, forWrite, 0);
  }

  /** An alias resolves to a process or HMI variable of its own type, never to an I/O tag. */
  lemma {:induction false} AliasEndsAtVariable(table: seq<Entry>, id: nat)
    requires AliasesPointBack(table) && 0 < id <= |table| && table[id - 1].ref.Alias?
    ensures Chase(table, id).Some?
    ensures Chase(table, id).value.ref.Proc? || Chase(table, id).value.ref.HmiVar?
    ensures Chase(table, id).value.typ == table[id - 1].typ
    decreases id
  {
    assert AliasOk(table, id - 1);
    var target := table[id - 1].ref.target;
    if table[target - 1].ref.Alias? {
      AliasEndsAtVariable(table, target);
    }
  }

  // ---------------------------------------------------------------- bits

  /** `1U << bit` as a byte. */
  function Mask(bit: nat): byte
    requires bit < 8
  {
    match bit
    case 0 => 1
    case 1 => 2
    case 2 => 4
    case 3 => 8
    case 4 => 16
    case 5 => 32
    case 6 => 64
    case 7 => 128
  }

  predicate BitSet(x: byte, bit: nat)
    requires bit < 8
  {
    x & Mask(bit) != 0
  }

  function WithBit(x: byte, bit: nat, on: bool): byte
    requires bit < 8
  {
    if on then x | Mask(bit) else x & !Mask(bit)
  }

  /** Setting or clearing one bit is read back from that bit and leaves its seven siblings alone. */
  lemma WithBitReads(x: byte, bit: nat, on: bool, other: nat)
    requires bit < 8 && other < 8
    ensures BitSet(WithBit(x, bit, on), other) == if other == bit then on else BitSet(x, other)
  {
    var m, k := Mask(bit), Mask(other);
    assert ((x | m) & m) != 0 && ((x & !m) & m) == 0;
    if other != bit {
      MasksApart(bit, other);
      BitsApart(x, m, k);
    }
  }

  lemma MasksApart(a: nat, b: nat)
    requires a < 8 && b < 8 && a != b
    ensures Mask(a) & Mask(b) == 0
  {
  }

  lemma BitsApart(x: byte, m: byte, k: byte)
    requires m & k == 0
    ensures (x | m) & k == x & k
    ensures (x & !m) & k == x & k
  {
  }

  // ---------------------------------------------------------------- reading

  function GetSlot(store: seq<Slot>, index: nat, typ: TagType): Option<Slot> {
    if index >= |store| || store[index].typ != typ then None else Some(store[index])
  }

  /** get_io_read_base and get_io_write_base: the image of one device, if the indices are in range. */
  function Image(images: Images, backend: nat, device: nat): Option<seq<byte>> {
    if backend >= |images| || device >= |images[backend]| then None else Some(images[backend][device])
  }

  function IoImage(mem: Memory, ref: Ref): Option<seq<byte>>
    requires ref.Io?
  {
    Image(if ref.dir == In then mem.inputs else mem.outputs, ref.backend, ref.device)
  }

  /** The range checks of read_io_value and write_io_value; byte_offset + size is a 64-bit sum. */
  predicate IoInRange(e: Entry, size: nat)
    requires e.ref.Io?
  {
    if e.typ == TBool then e.ref.bit < 8 && e.ref.offset < size
    else e.ref.offset + TypeSize(e.typ) <= size
  }

  /** The part of read_io_value after the image has been found. */
  function ReadImage(image: seq<byte>, e: Entry): Result<seq<byte>>
    requires e.ref.Io?
  {
    if e.typ == TOther then Err(EINVAL)
    else if !IoInRange(e, |image|) then Err(ERANGE)
    else if e.typ == TBool then Ok([if BitSet(image[e.ref.offset], e.ref.bit) then 1 else 0])
    else Ok(image[e.ref.offset..e.ref.offset + TypeSize(e.typ)])
  }

  /** read_io_value */
  function ReadIo(mem: Memory, e: Entry): Result<seq<byte>>
    requires e.ref.Io?
  {
    match IoImage(mem, e.ref)
    case None => Err(EINVAL)
    case Some(image) =>
      ReadImage(image, e)
  }

  /** tag_read: the bytes stored through the out pointer. */
  function ReadTag(table: seq<Entry>, mem: Memory, id: nat, outSize: nat): Result<seq<byte>> {
    match Resolve(table, id, false, 0)
    case None => Err(EINVAL)
    case Some(e) =>
      var n := TypeSize(e.typ);
      if n == 0 then Err(EINVAL)
      else if outSize < n then Err(ERANGE)
      else ReadEntry(mem, e)
  }

  function ReadEntry(mem: Memory, e: Entry): Result<seq<byte>> {
    match e.ref
    case Proc(index) =>
      (match GetSlot(mem.proc, index, e.typ)
       case None => Err(EINVAL)
       case Some(slot) => Ok(slot.v[..TypeSize(e.typ)]))
    case HmiVar(index, _) =>
      (match GetSlot(mem.hmi, index, e.typ)
       case None => Err(EINVAL)
       case Some(slot) => Ok(slot.v[..TypeSize(e.typ)]))
    case Io(_, _, _, _, _) => ReadIo(mem, e)
    case Alias(_, _) => Err(EINVAL)
  }

  // ---------------------------------------------------------------- writing

  /** The union after memcpy of the first bytes: what lies behind them is indeterminate. */
  function Partial(input: seq<byte>, n: nat, junk: Bytes4): Bytes4
    requires n <= |input| && n <= 4
  {
    input[..n] + junk[n..]
  }

  function SetImage(images: Images, backend: nat, device: nat, image: seq<byte>): Images
    requires backend < |images| && device < |images[backend]|
  {
    images[backend := images[backend][device := image]]
  }

  /** What a successful I/O write makes of the one image it touches. */
  function Updated(image: seq<byte>, e: Entry, value: Bytes4): (r: seq<byte>)
    requires e.ref.Io? && e.typ != TOther && IoInRange(e, |image|)
    ensures |r| == |image|
  {
    var at, n := e.ref.offset, TypeSize(e.typ);
    if e.typ == TBool then image[at := WithBit(image[at], e.ref.bit, value[0] != 0)]
    else image[..at] + value[..n] + image[at + n..]
  }

  /** write_io_value */
  function WriteIo(mem: Memory, e: Entry, value: Bytes4): Result<Memory>
    requires e.ref.Io?
  {
    var r := e.ref;
    if r.dir != Out then Err(EINVAL)
    else
      match Image(mem.outputs, r.backend, r.device)
      case None => Err(EINVAL)
      case Some(image) =>
        if e.typ == TOther then Err(EINVAL)
        else if !IoInRange(e, |image|) then Err(ERANGE)
        else Ok(mem.(outputs := SetImage(mem.outputs, r.backend, r.device, Updated(image, e, value))))
  }

  function WriteEntry(mem: Memory, e: Entry, value: Bytes4): Result<Memory> {
    match e.ref
    case Proc(index) =>
      if GetSlot(mem.proc, index, e.typ).None? then Err(EINVAL)
      else Ok(mem.(proc := mem.proc[index := Slot(e.typ, value)]))
    case HmiVar(index, _) =>
      if GetSlot(mem.hmi, index, e.typ).None? then Err(EINVAL)
      else Ok(mem.(hmi := mem.hmi[index := Slot(e.typ, value)]))
    case Io(_, _, _, _, _) => WriteIo(mem, e, value)
    case Alias(_, _) => Err(EINVAL)
  }

  /** tag_write */
  function WriteTag(table: seq<Entry>, mem: Memory, id: nat, input: seq<byte>, junk: Bytes4): Result<Memory> {
    match Resolve(table, id, true, 0)
    case None => Err(EINVAL)
    case Some(e) =>
      var n := TypeSize(e.typ);
      if n == 0 then Err(EINVAL)
      else if |input| < n then Err(ERANGE)
      else WriteEntry(mem, e, Partial(input, n, junk))
  }

  // ---------------------------------------------------------------- storage a tag occupies

  datatype Footprint =
    | ProcCell(cell: nat)
    | HmiCell(cell: nat)
    | Bit(dir: Dir, backend: nat, device: nat, byteAt: nat, bit: nat)
    | Bytes(dir: Dir, backend: nat, device: nat, from: nat, length: nat)
    | Nothing

  function FootprintOf(e: Entry): Footprint {
    match e.ref
    case Proc(i) => ProcCell(i)
    case HmiVar(i, _) => HmiCell(i)
    case Io(b, d, dir, offset, bit) =>
      if e.typ == TBool then Bit(dir, b, d, offset, bit) else Bytes(dir, b, d, offset, TypeSize(e.typ))
    case Alias(_, _) => Nothing
  }

  ghost predicate Disjoint(f: Footprint, g: Footprint) {
    match (f, g)
    case (ProcCell(i), ProcCell(j)) => i != j
    case (HmiCell(i), HmiCell(j)) => i != j
    case (Bit(x, b, d, at, bit), Bit(y, c, e, at2, bit2)) =>
      x != y || b != c || d != e || at != at2 || bit != bit2
    case (Bit(x, b, d, at, _), Bytes(y, c, e, from, n)) =>
      x != y || b != c || d != e || !(from <= at < from + n)
    case (Bytes(x, b, d, from, n), Bit(y, c, e, at, _)) =>
      x != y || b != c || d != e || !(from <= at < from + n)
    case (Bytes(x, b, d, from, n), Bytes(y, c, e, from2, n2)) =>
      x != y || b != c || d != e || from + n <= from2 || from2 + n2 <= from
    case _ => true
  }

  /** Overwriting a piece of an image leaves every range beside it alone. */
  lemma SpliceBeside(image: seq<byte>, at: nat, piece: seq<byte>, from: nat, to: nat)
    requires at + |piece| <= |image| && from <= to <= |image|
    requires to <= at || at + |piece| <= from
    ensures (image[..at] + piece + image[at + |piece|..])[from..to] == image[from..to]
  {
    var spliced := image[..at] + piece + image[at + |piece|..];
    assert forall k :: 0 <= k < |image| && (k < at || at + |piece| <= k) ==> spliced[k] == image[k];
  }

  lemma ImageFrame(image: seq<byte>, w: Entry, value: Bytes4, r: Entry)
    requires w.ref.Io? && r.ref.Io? && w.typ != TOther && IoInRange(w, |image|)
    requires w.ref.dir == r.ref.dir && w.ref.backend == r.ref.backend && w.ref.device == r.ref.device
    requires Disjoint(FootprintOf(w), FootprintOf(r))
    ensures ReadImage(Updated(image, w, value), r) == ReadImage(image, r)
  {
    if r.typ != TOther && IoInRange(r, |image|) {
      var at, from, to := w.ref.offset, r.ref.offset, r.ref.offset + TypeSize(r.typ);
      if w.typ == TBool && r.typ == TBool {
        WithBitReads(image[at], w.ref.bit, value[0] != 0, r.ref.bit);
      } else if w.typ == TBool {
        var bit := WithBit(image[at], w.ref.bit, value[0] != 0);
        SpliceBeside(image, at, [bit], from, to);
        assert image[at := bit] == image[..at] + [bit] + image[at + 1..];
      } else {
        SpliceBeside(image, at, value[..TypeSize(w.typ)], from, to);
      }
    }
  }

  lemma IoFrame(mem: Memory, w: Entry, value: Bytes4, r: Entry)
    requires w.ref.Io? && r.ref.Io? && WriteIo(mem, w, value).Ok?
    requires Disjoint(FootprintOf(w), FootprintOf(r))
    ensures ReadIo(WriteIo(mem, w, value).value, r) == ReadIo(mem, r)
  {
    if r.ref.dir == Out && w.ref.backend == r.ref.backend && w.ref.device == r.ref.device {
      ImageFrame(mem.outputs[w.ref.backend][w.ref.device], w, value, r);
    }
  }

  lemma EntryFrame(mem: Memory, w: Entry, value: Bytes4, r: Entry)
    requires WriteEntry(mem, w, value).Ok? && Disjoint(FootprintOf(w), FootprintOf(r))
    ensures ReadEntry(WriteEntry(mem, w, value).value, r) == ReadEntry(mem, r)
  {
    if w.ref.Io? && r.ref.Io? {
      IoFrame(mem, w, value, r);
    }
  }

  /**
   Frame: a successful write leaves every tag unchanged whose slot, bytes or bit are disjoint from those
   written; in particular the sibling bits of the same byte.
   */
  lemma WriteLeavesDisjointTagsAlone(table: seq<Entry>, mem: Memory, id: nat, input: seq<byte>, junk: Bytes4,
      other: nat, outSize: nat)
    requires WriteTag(table, mem, id, input, junk).Ok?
    requires Resolve(table, other, false, 0).Some?
    requires Disjoint(FootprintOf(Resolve(table, id, true, 0).value), FootprintOf(Resolve(table, other, false, 0).value))
    ensures ReadTag(table, WriteTag(table, mem, id, input, junk).value, other, outSize) == ReadTag(table, mem, other, outSize)
  {
    var w := Resolve(table, id, true, 0).value;
    EntryFrame(mem, w, Partial(input, TypeSize(w.typ), junk), Resolve(table, other, false, 0).value);
  }

  lemma EntryReadsBack(mem: Memory, w: Entry, value: Bytes4, r: Entry)
    requires WriteEntry(mem, w, value).Ok? && FootprintOf(r) == FootprintOf(w) && !w.ref.Alias?
    requires w.ref.Io? || r.typ == w.typ
    requires w.typ == TBool ==> value[0] == 0 || value[0] == 1
    ensures ReadEntry(WriteEntry(mem, w, value).value, r) == Ok(value[..TypeSize(w.typ)])
  {
    if w.ref.Io? {
      var image := mem.outputs[w.ref.backend][w.ref.device];
      var from, n := w.ref.offset, TypeSize(w.typ);
      if w.typ == TBool {
        WithBitReads(image[from], w.ref.bit, value[0] != 0, w.ref.bit);
        assert value[..1] == [value[0]];
      } else {
        var image2 := image[..from] + value[..n] + image[from + n..];
        assert image2[from..from + n] == value[..n];
      }
    }
  }

  /**
   Read after write: after a successful write of `input`, a read through any id that resolves to the same
   storage, and to the same type if that is a store slot, returns those bytes, whatever the rest of the union.
   */
  lemma ReadAfterWrite(table: seq<Entry>, mem: Memory, id: nat, input: seq<byte>, junk: Bytes4, other: nat, outSize: nat)
    requires WriteTag(table, mem, id, input, junk).Ok?
    requires Resolve(table, other, false, 0).Some?
    requires var w, r := Resolve(table, id, true, 0).value, Resolve(table, other, false, 0).value;
      && FootprintOf(r) == FootprintOf(w) && (w.ref.Io? || r.typ == w.typ) && outSize >= TypeSize(w.typ)
      && (w.typ == TBool ==> input[0] == 0 || input[0] == 1)
    ensures ReadTag(table, WriteTag(table, mem, id, input, junk).value, other, outSize)
         == Ok(input[..TypeSize(Resolve(table, id, true, 0).value.typ)])
  {
    var w, r := Resolve(table, id, true, 0).value, Resolve(table, other, false, 0).value;
    var n := TypeSize(w.typ);
    var value := Partial(input, n, junk);
    assert value[..n] == input[..n];
    EntryReadsBack(mem, w, value, r);
  }

  /** A tag that may be written resolves for reading to the same entry. */
  lemma {:induction false} WritableIsReadable(table: seq<Entry>, id: nat, depth: nat)
    requires Resolve(table, id, true, depth).Some?
    ensures Resolve(table, id, false, depth) == Resolve(table, id, true, depth)
    decreases 5 - depth
  {
    match Get(table, id)
    case None =>
    case Some(e) =>
      if e.ref.Alias? {
        WritableIsReadable(table, e.ref.target, depth + 1);
      }
  }

  /** Writing then reading through one and the same id. */
  lemma WriteThenReadSameId(table: seq<Entry>, mem: Memory, id: nat, input: seq<byte>, junk: Bytes4)
    requires WriteTag(table, mem, id, input, junk).Ok?
    requires Resolve(table, id, true, 0).value.typ == TBool ==> input[0] == 0 || input[0] == 1
    ensures ReadTag(table, WriteTag(table, mem, id, input, junk).value, id, |input|)
         == Ok(input[..TypeSize(Resolve(table, id, true, 0).value.typ)])
  {
    WritableIsReadable(table, id, 0);
    ReadAfterWrite(table, mem, id, input, junk, id, |input|);
  }

  /** Shape of the memory: slot types, store sizes and image sizes. No write changes it. */
  ghost predicate SameShape(a: Memory, b: Memory) {
    && |a.proc| == |b.proc| && (forall i :: 0 <= i < |a.proc| ==> a.proc[i].typ == b.proc[i].typ)
    && |a.hmi| == |b.hmi| && (forall i :: 0 <= i < |a.hmi| ==> a.hmi[i].typ == b.hmi[i].typ)
    && a.inputs == b.inputs
    && |a.outputs| == |b.outputs|
    && (forall i :: 0 <= i < |a.outputs| ==> |a.outputs[i]| == |b.outputs[i]|)
    && (forall i, j :: 0 <= i < |a.outputs| && 0 <= j < |a.outputs[i]| ==> |a.outputs[i][j]| == |b.outputs[i][j]|)
  }

  lemma WriteKeepsShape(table: seq<Entry>, mem: Memory, id: nat, input: seq<byte>, junk: Bytes4)
    requires WriteTag(table, mem, id, input, junk).Ok?
    ensures SameShape(mem, WriteTag(table, mem, id, input, junk).value)
  {
  }
}
