/** READ and WRITE of one tag together, over the tag layer (core/ipc/tag_rpc_plc.c:87-252). */
module RpcValues {
  import opened RpcText
  import opened Tags
  import opened Words

  lemma ReadEntryShape(mem: Memory, e: Entry)
    ensures match ReadEntry(mem, e)
      case Ok(bytes) => !e.ref.Alias? && |bytes| == TypeSize(e.typ)
      case Err(code) => code != 0
  {
  }

  /** An entry that reads can be written, unless it is an input. */
  lemma ReadableEntryIsWritable(mem: Memory, e: Entry, value: Bytes4)
    requires ReadEntry(mem, e).Ok? && (e.ref.Io? ==> e.ref.dir == Out)
    ensures WriteEntry(mem, e, value).Ok?
  {
  }

  /** Through aliases the type stays that of the tag the client named. */
  lemma ResolvedType(table: seq<Entry>, id: nat)
    requires AliasesPointBack(table) && Resolve(table, id, false, 0).Some?
    ensures 0 < id <= |table| && Resolve(table, id, false, 0).value.typ == table[id - 1].typ
  {
    ResolverAgreesWithinFourHops(table, id, false);
    if table[id - 1].ref.Alias? {
      AliasEndsAtVariable(table, id);
    }
    hide Resolve, Hops;
  }

  /** Every link to the tag is read-write and it is not an input. */
  ghost predicate Writable(table: seq<Entry>, id: nat) {
    match Resolve(table, id, true, 0)
    case None => false
    case Some(e) => e.ref.Io? ==> e.ref.dir == Out
  }

  lemma SuccessfulRead(table: seq<Entry>, mem: Memory, id: nat, reqId: u32, realText: string)
    requires AliasesPointBack(table) && 0 < id <= |table|
    requires ReadReply(table, mem, table[id - 1].typ, id, reqId, realText).status == 0
    ensures var typ := table[id - 1].typ;
      && typ != TOther && ReadTag(table, mem, id, TypeSize(typ)).Ok?
      && Resolve(table, id, false, 0).Some? && Resolve(table, id, false, 0).value.typ == typ
      && ReadEntry(mem, Resolve(table, id, false, 0).value) == ReadTag(table, mem, id, TypeSize(typ))
      && |ReadTag(table, mem, id, TypeSize(typ)).value| == TypeSize(typ)
  {
    var r := Resolve(table, id, false, 0);
    if r.Some? {
      ResolvedType(table, id);
      ReadEntryShape(mem, r.value);
    }
    hide Resolve, ReadEntry, AliasesPointBack, TextOf;
  }

  /**
   The text of a READ, given back to WRITE, is accepted for every writable BOOL, U8, U16 or U32 tag, and the tag then
   reads the same value. A BOOL must hold 0 or 1, as every C bool does.
   */
  lemma ReadTextWritesBack(table: seq<Entry>, mem: Memory, id: nat, reqId: u32, realText: string,
    ulong: nat, float: Option<Bytes4>, junk: Bytes4)
    requires AliasesPointBack(table) && 0 < id <= |table| && ulong >= U32
    requires table[id - 1].typ != TReal && Writable(table, id)
    requires ReadReply(table, mem, table[id - 1].typ, id, reqId, realText).status == 0
    requires table[id - 1].typ == TBool ==> ReadTag(table, mem, id, 1) == Ok([0]) || ReadTag(table, mem, id, 1) == Ok([1])
    ensures var typ := table[id - 1].typ;
      var text := ReadReply(table, mem, typ, id, reqId, realText).value;
      var (rsp, after) := WriteReply(table, mem, typ, id, reqId, text, ulong, float, junk);
      rsp.status == 0 && ReadTag(table, after, id, TypeSize(typ)) == ReadTag(table, mem, id, TypeSize(typ))
  {
    var typ := table[id - 1].typ;
    SuccessfulRead(table, mem, id, reqId, realText);
    WritableIsReadable(table, id, 0);
    var e := Resolve(table, id, true, 0).value;
    var bytes := ReadTag(table, mem, id, TypeSize(typ)).value;
    TextRoundTrip(typ, bytes, ulong, realText, float);
    ReadableEntryIsWritable(mem, e, Partial(bytes, TypeSize(typ), junk));
    assert WriteTag(table, mem, id, bytes, junk).Ok?;
    WriteThenReadSameId(table, mem, id, bytes, junk);
    assert bytes[..TypeSize(typ)] == bytes;
    hide Resolve, WriteTag, ReadTag, BytesOf, TextOf, AliasesPointBack, Writable;
  }

  /** A decimal number written with success is what the next READ of the same tag prints. */
  lemma WrittenNumberIsPrinted(table: seq<Entry>, mem: Memory, id: nat, n: nat, reqId: u32, realText: string,
    ulong: nat, junk: Bytes4)
    requires AliasesPointBack(table) && 0 < id <= |table| && ulong >= U32
    requires table[id - 1].typ in {TU8, TU16, TU32} && n < Capacity(TypeSize(table[id - 1].typ))
    requires WriteReply(table, mem, table[id - 1].typ, id, reqId, Decimal(n), ulong, None, junk).0.status == 0
    ensures var typ := table[id - 1].typ;
      var after := WriteReply(table, mem, typ, id, reqId, Decimal(n), ulong, None, junk).1;
      ReadReply(table, after, typ, id, reqId, realText) == Response(reqId, 0, TypeName(typ), Decimal(n), "")
  {
    var typ := table[id - 1].typ;
    CapacityOfSizes();
    DecimalBytes(typ, n, ulong);
    var bytes := Little(n, TypeSize(typ));
    NumberOfLittle(n, TypeSize(typ));
    hide Decimal, Little, Number, Capacity, BytesOf;
    WriteErrorsAreNonzero(table, mem, id, bytes, junk);
    WritableIsReadable(table, id, 0);
    ResolvedType(table, id);
    WriteThenReadSameId(table, mem, id, bytes, junk);
    assert bytes[..TypeSize(typ)] == bytes;
    hide Resolve, WriteTag, ReadTag, AliasesPointBack;
  }

  lemma DecimalBytes(typ: TagType, n: nat, ulong: nat)
    requires typ in {TU8, TU16, TU32} && n < Capacity(TypeSize(typ)) && ulong >= U32
    ensures BytesOf(typ, Decimal(n), ulong, None) == Ok(Little(n, TypeSize(typ)))
  {
    CapacityOfSizes();
    StrtoulReadsDecimal(n, ulong);
    SmallRemainder(n);
    hide Strtoul, Decimal, Little, Capacity, BoolOfText, EqNoCase, Rem32;
  }

  lemma WriteErrorsAreNonzero(table: seq<Entry>, mem: Memory, id: nat, input: seq<byte>, junk: Bytes4)
    ensures match WriteTag(table, mem, id, input, junk)
      case Err(code) => code != 0
      case Ok(_) => Resolve(table, id, true, 0).Some?
  {
    hide Resolve;
  }
}
