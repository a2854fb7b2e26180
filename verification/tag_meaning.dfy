/**
 What the typed accessors do to the stores and images, byte by byte and bit by bit (core/tag/tag_api.c:165-419): bits are
 told by their value in the byte, multi-byte values by the bytes at their offset, refusals by their error codes.
 */
module TagMeaning {
  import opened Tags
  import opened Words

  // ---------------------------------------------------------------- bits as numbers

  /** The value of a bit: the binary digit of weight 2^bit. */
  function Digit(n: nat, bit: nat): (d: nat)
    ensures d <= 1
  {
    n / Pow2(bit) % 2
  }

  /** Shifting a byte halves it, and its lowest bit is its remainder. */
  lemma Halved(x: byte)
    ensures (x >> 1) as int == x as int / 2
    ensures x & 1 != 0 <==> x as int % 2 == 1
  {
  }

  lemma DigitHalved(n: nat, bit: nat)
    requires bit > 0
    ensures Digit(n, bit) == Digit(n / 2, bit - 1)
  {
    var q := Pow2(bit - 1);
    assert Pow2(bit) == 2 * q;
    DivideTwice(n, q);
    hide Pow2;
  }

  lemma DivideTwice(n: nat, q: nat)
    requires q > 0
    ensures n / (2 * q) == n / 2 / q
  {
    var h := n / 2;
    var k := h / q;
    QuotientBounds(h, q);
    assert 2 * h <= n <= 2 * h + 1;
    TwiceProduct(k, q);
    QuotientUnique(n, 2 * q, k);
  }

  lemma TwiceProduct(k: nat, q: nat)
    ensures k * (2 * q) == 2 * (k * q)
  {
  }

  /** Every bit but the lowest is the one below it in the halved byte. */
  lemma BitHalved(x: byte, bit: nat)
    requires 0 < bit < 8
    ensures BitSet(x, bit) <==> BitSet(x >> 1, bit - 1)
  {
  }

  lemma WithBitHalved(x: byte, bit: nat, on: bool)
    requires 0 < bit < 8
    ensures WithBit(x, bit, on) >> 1 == WithBit(x >> 1, bit - 1, on)
    ensures WithBit(x, bit, on) & 1 == x & 1
  {
  }

  lemma LowestBit(x: byte, on: bool)
    ensures WithBit(x, 0, on) >> 1 == x >> 1 && (WithBit(x, 0, on) & 1 != 0 <==> on)
    ensures BitSet(x, 0) <==> x & 1 != 0
  {
  }

  /** A bit is set exactly when its digit is 1. */
  lemma {:induction false} BitIsDigit(x: byte, bit: nat)
    requires bit < 8
    ensures BitSet(x, bit) <==> Digit(x as nat, bit) == 1
    decreases bit
  {
    hide BitSet;
    Halved(x);
    if bit == 0 {
      LowestBit(x, true);
    } else {
      hide Digit;
      BitHalved(x, bit);
      BitIsDigit(x >> 1, bit - 1);
      DigitHalved(x as nat, bit);
    }
  }

  /** A byte as a number. */
  function Value(x: byte): nat {
    x as nat
  }

  function Half(x: byte): byte {
    x >> 1
  }

  function Low(x: byte): nat {
    if x & 1 != 0 then 1 else 0
  }

  lemma ValueSplit(x: byte)
    ensures Value(x) == 2 * Value(Half(x)) + Low(x) && Low(x) == Value(x) % 2 && Value(Half(x)) == Value(x) / 2
  {
    Halved(x);
  }

  lemma HalfOfWithBit(x: byte, bit: nat, on: bool)
    requires 0 < bit < 8
    ensures Half(WithBit(x, bit, on)) == WithBit(Half(x), bit - 1, on) && Low(WithBit(x, bit, on)) == Low(x)
  {
    WithBitHalved(x, bit, on);
    hide WithBit;
  }

  /** One step of the recursion below, in numbers. */
  lemma WithBitStep(x: byte, bit: nat, on: bool)
    requires 0 < bit < 8
    ensures Value(WithBit(x, bit, on)) == 2 * Value(WithBit(Half(x), bit - 1, on)) + Value(x) % 2
    ensures Value(Half(x)) == Value(x) / 2
  {
    hide *;
    HalfOfWithBit(x, bit, on);
    ValueSplit(x);
    ValueSplit(WithBit(x, bit, on));
  }

  lemma WithBitBase(x: byte, on: bool)
    ensures Value(WithBit(x, 0, on)) == Value(x) - Value(x) % 2 + if on then 1 else 0
  {
    LowestBit(x, on);
    Halved(x);
    Halved(WithBit(x, 0, on));
    hide WithBit;
  }

  lemma {:induction false} WithBitValue(x: byte, bit: nat, on: bool)
    requires bit < 8
    ensures Value(WithBit(x, bit, on)) == Value(x) + ((if on then 1 else 0) - Digit(Value(x), bit)) * Pow2(bit)
    decreases bit
  {
    hide *;
    if bit == 0 {
      WithBitBase(x, on);
      LowestDigit(Value(x));
    } else {
      WithBitStep(x, bit, on);
      WithBitValue(Half(x), bit - 1, on);
      DigitHalved(Value(x), bit);
      NextPower(bit);
      DoubledStep((if on then 1 else 0) - Digit(Value(x), bit), Pow2(bit - 1));
    }
  }

  lemma LowestDigit(n: nat)
    ensures Digit(n, 0) == n % 2 && Pow2(0) == 1
  {
  }

  lemma NextPower(bit: nat)
    requires bit > 0
    ensures Pow2(bit) == 2 * Pow2(bit - 1)
  {
  }

  lemma DoubledStep(a: int, q: nat)
    ensures 2 * (a * q) == a * (2 * q)
  {
  }

  /** The byte as a number after a bit has been turned on or off: its digit is replaced, nothing else. */
  lemma WithBitIsDigit(x: byte, bit: nat, on: bool)
    requires bit < 8
    ensures WithBit(x, bit, on) as int == x as int + ((if on then 1 else 0) - Digit(x as nat, bit)) * Pow2(bit)
  {
    hide WithBit, Digit, Pow2;
    WithBitValue(x, bit, on);
  }

  // ---------------------------------------------------------------- what a read returns

  lemma SizesOfTypes()
    ensures TypeSize(TBool) == TypeSize(TU8) == 1 && TypeSize(TU16) == 2 && TypeSize(TU32) == TypeSize(TReal) == 4
    ensures TypeSize(TOther) == 0
  {
  }

  /** The device image an I/O entry addresses is there. */
  ghost predicate Addressed(images: Images, e: Entry)
    requires e.ref.Io?
  {
    e.ref.backend < |images| && e.ref.device < |images[e.ref.backend]|
  }

  ghost function ImagesOf(mem: Memory, e: Entry): Images
    requires e.ref.Io?
  {
    if e.ref.dir == In then mem.inputs else mem.outputs
  }

  /** A BOOL I/O tag reads the binary digit of its bit in the byte at its offset. */
  lemma BoolIoReadsDigit(table: seq<Entry>, mem: Memory, id: nat, outSize: nat, e: Entry)
    requires Resolve(table, id, false, 0) == Some(e) && e.ref.Io? && e.typ == TBool && outSize >= 1
    ensures var images, r := ImagesOf(mem, e), ReadTag(table, mem, id, outSize);
      if !Addressed(images, e) then r == Err(-22)
      else
        var image := images[e.ref.backend][e.ref.device];
        if e.ref.bit >= 8 || e.ref.offset >= |image| then r == Err(-34)
        else r == Ok([if Digit(image[e.ref.offset] as nat, e.ref.bit) == 1 then 1 else 0])
  {
    var images := ImagesOf(mem, e);
    if Addressed(images, e) && e.ref.bit < 8 && e.ref.offset < |images[e.ref.backend][e.ref.device]| {
      BitIsDigit(images[e.ref.backend][e.ref.device][e.ref.offset], e.ref.bit);
    }
    hide BitSet, Digit, Resolve;
  }

  /** Any other I/O tag reads the bytes from its offset on, one, two or four of them. */
  lemma NumberIoReadsBytes(table: seq<Entry>, mem: Memory, id: nat, outSize: nat, e: Entry)
    requires Resolve(table, id, false, 0) == Some(e) && e.ref.Io? && e.typ != TBool && e.typ != TOther
    requires outSize >= (if e.typ == TU8 then 1 else if e.typ == TU16 then 2 else 4)
    ensures var images, r := ImagesOf(mem, e), ReadTag(table, mem, id, outSize);
      var n := if e.typ == TU8 then 1 else if e.typ == TU16 then 2 else 4;
      if !Addressed(images, e) then r == Err(-22)
      else
        var image := images[e.ref.backend][e.ref.device];
        if e.ref.offset + n > |image| then r == Err(-34)
        else r.Ok? && |r.value| == n && forall k :: 0 <= k < n ==> r.value[k] == image[e.ref.offset + k]
  {
    hide BitSet, Resolve;
  }

  /** The slot of a variable of the entry's own type, if there is one. */
  ghost function SlotOf(mem: Memory, e: Entry): Option<Slot> {
    match e.ref
    case Proc(k) => if k < |mem.proc| && mem.proc[k].typ == e.typ then Some(mem.proc[k]) else None
    case HmiVar(k, _) => if k < |mem.hmi| && mem.hmi[k].typ == e.typ then Some(mem.hmi[k]) else None
    case _ => None
  }

  /** A variable reads the first bytes of its slot, one, two or four of them. */
  lemma VariableReadsSlot(table: seq<Entry>, mem: Memory, id: nat, outSize: nat, e: Entry)
    requires Resolve(table, id, false, 0) == Some(e) && (e.ref.Proc? || e.ref.HmiVar?) && e.typ != TOther
    requires outSize >= (if e.typ == TBool || e.typ == TU8 then 1 else if e.typ == TU16 then 2 else 4)
    ensures var r := ReadTag(table, mem, id, outSize);
      match SlotOf(mem, e)
      case None => r == Err(-22)
      case Some(slot) =>
        && r.Ok? && |r.value| == (if e.typ == TBool || e.typ == TU8 then 1 else if e.typ == TU16 then 2 else 4)
        && forall k :: 0 <= k < |r.value| ==> r.value[k] == slot.v[k]
  {
    hide Resolve;
  }

  /** What is refused before any store or image is looked at, for reads and writes alike. */
  lemma RefusedAtOnce(table: seq<Entry>, mem: Memory, id: nat, outSize: nat, input: seq<byte>, junk: Bytes4)
    ensures Resolve(table, id, false, 0).None? ==> ReadTag(table, mem, id, outSize) == Err(-22)
    ensures Resolve(table, id, true, 0).None? ==> WriteTag(table, mem, id, input, junk) == Err(-22)
    ensures var r := Resolve(table, id, false, 0);
      r.Some? ==>
        && (r.value.typ == TOther ==> ReadTag(table, mem, id, outSize) == Err(-22))
        && (r.value.typ == TU16 && outSize < 2 ==> ReadTag(table, mem, id, outSize) == Err(-34))
        && ((r.value.typ == TU32 || r.value.typ == TReal) && outSize < 4 ==> ReadTag(table, mem, id, outSize) == Err(-34))
        && (r.value.typ != TOther && outSize == 0 ==> ReadTag(table, mem, id, outSize) == Err(-34))
    ensures var r := Resolve(table, id, true, 0);
      r.Some? ==>
        && (r.value.typ == TOther ==> WriteTag(table, mem, id, input, junk) == Err(-22))
        && (r.value.typ == TU16 && |input| < 2 ==> WriteTag(table, mem, id, input, junk) == Err(-34))
        && ((r.value.typ == TU32 || r.value.typ == TReal) && |input| < 4 ==> WriteTag(table, mem, id, input, junk) == Err(-34))
        && (r.value.typ != TOther && |input| == 0 ==> WriteTag(table, mem, id, input, junk) == Err(-34))
  {
    hide Resolve, ReadEntry, WriteEntry;
  }

  // ---------------------------------------------------------------- what a write changes

  /** Nothing but one device's output image is different, and that has kept its size. */
  ghost predicate OnlyImageDiffers(mem: Memory, u: Memory, b: nat, d: nat)
    requires b < |mem.outputs| && d < |mem.outputs[b]|
  {
    && u.proc == mem.proc && u.hmi == mem.hmi && u.inputs == mem.inputs
    && |u.outputs| == |mem.outputs| && |u.outputs[b]| == |mem.outputs[b]| && |u.outputs[b][d]| == |mem.outputs[b][d]|
    && (forall c :: 0 <= c < |mem.outputs| && c != b ==> u.outputs[c] == mem.outputs[c])
    && (forall c :: 0 <= c < |mem.outputs[b]| && c != d ==> u.outputs[b][c] == mem.outputs[b][c])
  }

  /** A BOOL output tag replaces one binary digit of the byte at its offset. */
  lemma BoolIoWritesDigit(table: seq<Entry>, mem: Memory, id: nat, input: seq<byte>, junk: Bytes4, e: Entry)
    requires Resolve(table, id, true, 0) == Some(e) && e.ref.Io? && e.typ == TBool && |input| >= 1
    ensures var w := WriteTag(table, mem, id, input, junk);
      if e.ref.dir == In || !Addressed(mem.outputs, e) then w == Err(-22)
      else
        var b, d, at := e.ref.backend, e.ref.device, e.ref.offset;
        var image := mem.outputs[b][d];
        if e.ref.bit >= 8 || at >= |image| then w == Err(-34)
        else
          && w.Ok? && OnlyImageDiffers(mem, w.value, b, d)
          && (forall i :: 0 <= i < |image| && i != at ==> w.value.outputs[b][d][i] == image[i])
          && w.value.outputs[b][d][at] as int
             == image[at] as int + ((if input[0] != 0 then 1 else 0) - Digit(image[at] as nat, e.ref.bit)) * Pow2(e.ref.bit)
  {
    if e.ref.dir == Out && Addressed(mem.outputs, e) && e.ref.bit < 8
       && e.ref.offset < |mem.outputs[e.ref.backend][e.ref.device]| {
      WithBitIsDigit(mem.outputs[e.ref.backend][e.ref.device][e.ref.offset], e.ref.bit, input[0] != 0);
    }
    hide WithBit, Digit, Pow2, Resolve;
  }

  /** Any other output tag stores its one, two or four bytes from its offset on. */
  lemma NumberIoWritesBytes(table: seq<Entry>, mem: Memory, id: nat, input: seq<byte>, junk: Bytes4, e: Entry)
    requires Resolve(table, id, true, 0) == Some(e) && e.ref.Io? && e.typ != TBool && e.typ != TOther
    requires |input| >= (if e.typ == TU8 then 1 else if e.typ == TU16 then 2 else 4)
    ensures var w := WriteTag(table, mem, id, input, junk);
      var n := if e.typ == TU8 then 1 else if e.typ == TU16 then 2 else 4;
      if e.ref.dir == In || !Addressed(mem.outputs, e) then w == Err(-22)
      else
        var b, d, at := e.ref.backend, e.ref.device, e.ref.offset;
        var image := mem.outputs[b][d];
        if at + n > |image| then w == Err(-34)
        else
          && w.Ok? && OnlyImageDiffers(mem, w.value, b, d)
          && forall i :: 0 <= i < |image| ==>
              w.value.outputs[b][d][i] == if at <= i < at + n then input[i - at] else image[i]
  {
    hide WithBit, Resolve;
  }

  /** A variable of the entry's own type takes the first bytes of the input; no other slot and no image changes. */
  lemma VariableTakesBytes(table: seq<Entry>, mem: Memory, id: nat, input: seq<byte>, junk: Bytes4, e: Entry)
    requires Resolve(table, id, true, 0) == Some(e) && (e.ref.Proc? || e.ref.HmiVar?) && e.typ != TOther
    requires |input| >= (if e.typ == TBool || e.typ == TU8 then 1 else if e.typ == TU16 then 2 else 4)
    ensures var w := WriteTag(table, mem, id, input, junk);
      if SlotOf(mem, e).None? then w == Err(-22)
      else
        && w.Ok? && w.value.inputs == mem.inputs && w.value.outputs == mem.outputs
        && (if e.ref.Proc? then
              w.value.hmi == mem.hmi && w.value.proc == mem.proc[e.ref.index := w.value.proc[e.ref.index]]
            else
              w.value.proc == mem.proc && |w.value.hmi| == |mem.hmi|
              && w.value.hmi == mem.hmi[e.ref.index := w.value.hmi[e.ref.index]])
        && SlotOf(w.value, e).Some?
        && forall k :: 0 <= k < (if e.typ == TBool || e.typ == TU8 then 1 else if e.typ == TU16 then 2 else 4) ==>
            SlotOf(w.value, e).value.v[k] == input[k]
  {
    hide Resolve;
  }
}
