/**
 From a client's line to the reply and the memory (services/tcp/tag_tcp_server.c:97-151, core/ipc/tag_rpc_plc.c:76-309):
 what every line asks for, and what a READ and a WRITE of a tag are answered, spelled out.
 */
module RpcReplies {
  import opened RpcEndpoints
  import opened RpcText
  import opened RpcValues
  import opened Tags
  import opened Words
  import Protocol = RpcProtocol

  // ---------------------------------------------------------------- every line

  /** The words of a line, white space apart. */
  ghost function WordsOf(line: string): seq<string>
    decreases |line|
  {
    if line == "" then []
    else if IsSpace(line[0]) then WordsOf(line[1..])
    else
      var n := WordRun(line);
      [line[..n]] + WordsOf(line[n..])
  }

  function Cut(word: string): string {
    word[..Min(|word|, 63)]
  }

  lemma {:induction false} SpacesSkipped(line: string)
    ensures WordsOf(line[SpaceRun(line)..]) == WordsOf(line)
    ensures SpaceRun(line) < |line| ==> !IsSpace(line[SpaceRun(line)])
    decreases |line|
  {
    if line != [] && IsSpace(line[0]) {
      SpacesSkipped(line[1..]);
      assert line[1..][SpaceRun(line[1..])..] == line[SpaceRun(line)..];
    } else {
      assert line[0..] == line;
    }
  }

  lemma SliceOfTail(line: string, from: nat, n: nat, m: nat)
    requires from <= |line| && m <= n <= |line| - from
    ensures line[from..][..n][..m] == line[from..from + m] && line[from..][n..] == line[from + n..]
  {
  }

  lemma TailOfTail(line: string, cursor: nat, n: nat)
    requires cursor <= |line| && n <= |line| - cursor
    ensures line[cursor..][n..] == line[cursor + n..] && line[0..] == line
  {
  }

  /** The words of a text that begins with one, or holds none. */
  lemma FirstWord(tail: string)
    requires tail == "" || !IsSpace(tail[0])
    ensures WordsOf(tail) == if WordRun(tail) == 0 then [] else [tail[..WordRun(tail)]] + WordsOf(tail[WordRun(tail)..])
  {
  }

  /** A token is the first word of what is left of the line, cut to its field; the cursor ends behind the word. */
  lemma TokenIsFirstWord(line: string, cursor: nat, room: nat)
    requires cursor <= |line| && room > 1
    ensures var (token, next) := Token(line, cursor, room);
      var words := WordsOf(line[cursor..]);
      if words == [] then token == None
      else token == Some(words[0][..Min(|words[0]|, room - 1)]) && WordsOf(line[next..]) == words[1..]
  {
    hide SpaceRun, IsSpace, WordsOf, WordRun;
    var rest := line[cursor..];
    SpacesSkipped(rest);
    TailOfTail(line, cursor, SpaceRun(rest));
    var from := cursor + SpaceRun(rest);
    var n := WordRun(line[from..]);
    FirstWord(line[from..]);
    SliceOfTail(line, from, n, Min(n, room - 1));
  }

  lemma CommandWord(word: string, name: string)
    requires |name| < 15
    ensures word[..Min(|word|, 15)] == name <==> word == name
  {
    if word[..Min(|word|, 15)] == name {
      assert |word| < 15;
    }
  }

  /**
   What a line asks for, over all lines: READ with a second word, WRITE with a second and a third, each cut to 63
   characters; every other line is refused with bad_cmd.
   */
  lemma LineMeans(line: string)
    ensures var words := WordsOf(line);
      CommandOf(line)
      == if |words| >= 2 && words[0] == "READ" then Some(Command(1, Cut(words[1]), ""))
         else if |words| >= 3 && words[0] == "WRITE" then Some(Command(2, Cut(words[1]), Cut(words[2])))
         else None
  {
    hide Token, WordsOf, IsSpace;
    var words := WordsOf(line);
    TailOfTail(line, 0, 0);
    TokenIsFirstWord(line, 0, 16);
    if words != [] {
      var c1 := Token(line, 0, 16).1;
      CommandWord(words[0], "READ");
      CommandWord(words[0], "WRITE");
      SecondAndThird(line, c1, words[1..]);
    }
  }

  /** The two tokens behind the command. */
  lemma SecondAndThird(line: string, c1: nat, words: seq<string>)
    requires c1 <= |line| && WordsOf(line[c1..]) == words
    ensures var (name, c2) := Token(line, c1, 64);
      if words == [] then name == None
      else
        name == Some(Cut(words[0]))
        && if |words| == 1 then Token(line, c2, 64).0 == None else Token(line, c2, 64).0 == Some(Cut(words[1]))
  {
    hide Token, WordsOf, IsSpace;
    TokenIsFirstWord(line, c1, 64);
    TokenIsFirstWord(line, Token(line, c1, 64).1, 64);
  }

  // ---------------------------------------------------------------- READ

  /** The request that the server makes of a line, under the id it has drawn. */
  function RequestOf(line: string, id: u32): Option<Protocol.Request> {
    match CommandOf(line)
    case None => None
    case Some(c) => Some(Protocol.Request(id, c.op, c.name, c.value))
  }

  lemma ReadRequest(name: string, id: u32)
    requires IsWord(name) && |name| <= 63
    ensures RequestOf("READ " + name, id) == Some(Protocol.Request(id, 1, name, ""))
  {
    ReadLineMeans(name);
    assert name[..|name|] == name;
    hide CommandOf;
  }

  lemma WriteRequest(name: string, value: string, id: u32)
    requires IsWord(name) && |name| <= 63 && IsWord(value) && |value| <= 63
    ensures RequestOf("WRITE " + name + " " + value, id) == Some(Protocol.Request(id, 2, name, value))
  {
    WriteLineMeans(name, value);
    assert name[..|name|] == name && value[..|value|] == value;
    hide CommandOf;
  }

  function ByteValue(b: byte): nat {
    b as nat
  }

  /** The text of a value by type: 0 or 1, the decimal of its bytes with the low byte first, or what "%f" prints. */
  ghost function ValueText(typ: TagType, bytes: seq<byte>, realText: string): string
    requires typ != TOther && |bytes| == TypeSize(typ)
  {
    match typ
    case TBool => if bytes[0] == 0 then "0" else "1"
    case TU8 => Decimal(ByteValue(bytes[0]))
    case TU16 => Decimal(ByteValue(bytes[0]) + 256 * ByteValue(bytes[1]))
    case TU32 =>
      Decimal(ByteValue(bytes[0]) + 256 * ByteValue(bytes[1]) + 65536 * ByteValue(bytes[2]) + 16777216 * ByteValue(bytes[3]))
    case TReal => realText
  }

  lemma NumberOf(b: seq<byte>)
    requires b != []
    ensures Number(b) == ByteValue(b[0]) + 256 * Number(b[1..])
    ensures |b| == 1 ==> Number(b) == ByteValue(b[0])
  {
    if |b| == 1 {
      assert b[1..] == [];
    }
  }

  lemma LittleEndian(b: seq<byte>)
    ensures |b| == 1 ==> Number(b) == ByteValue(b[0])
    ensures |b| == 2 ==> Number(b) == ByteValue(b[0]) + 256 * ByteValue(b[1])
    ensures |b| == 4 ==>
      Number(b) == ByteValue(b[0]) + 256 * ByteValue(b[1]) + 65536 * ByteValue(b[2]) + 16777216 * ByteValue(b[3])
  {
    hide Number, ByteValue;
    if |b| == 1 {
      NumberOf(b);
    } else if |b| == 2 {
      NumberOf(b);
      NumberOf(b[1..]);
    } else if |b| == 4 {
      NumberOf(b);
      NumberOf(b[1..]);
      NumberOf(b[1..][1..]);
      NumberOf(b[1..][1..][1..]);
    }
  }

  lemma TextOfValue(typ: TagType, bytes: seq<byte>, realText: string)
    requires typ != TOther && |bytes| == TypeSize(typ)
    ensures TextOf(typ, bytes, realText) == ValueText(typ, bytes, realText)
  {
    hide Number, Decimal, ByteValue;
    LittleEndian(bytes);
  }

  /** A tag that reads without error delivers as many bytes as its own type has. */
  lemma ReadSize(table: seq<Entry>, mem: Memory, id: nat, outSize: nat)
    requires AliasesPointBack(table) && ReadTag(table, mem, id, outSize).Ok?
    ensures 0 < id <= |table| && |ReadTag(table, mem, id, outSize).value| == TypeSize(table[id - 1].typ)
  {
    ResolvedType(table, id);
    ReadEntryShape(mem, Resolve(table, id, false, 0).value);
    hide Resolve, ReadEntry, AliasesPointBack;
  }

  lemma ReadReplyMeans(table: seq<Entry>, mem: Memory, id: nat, reqId: u32, realText: string)
    requires AliasesPointBack(table) && 0 < id <= |table|
    ensures var typ := table[id - 1].typ;
      var rsp := ReadReply(table, mem, typ, id, reqId, realText);
      if typ == TOther then rsp == Response(reqId, -22, "", "", "read_failed")
      else
        match ReadTag(table, mem, id, TypeSize(typ))
        case Err(code) => rsp == Response(reqId, code, "", "", "read_failed")
        case Ok(bytes) =>
          && |bytes| == TypeSize(typ) && rsp.id == reqId && rsp.status == 0 && rsp.msg == ""
          && rsp.value == ValueText(typ, bytes, realText)
          && (typ == TBool ==> rsp.typ == "BOOL") && (typ == TU8 ==> rsp.typ == "U8") && (typ == TU16 ==> rsp.typ == "U16")
          && (typ == TU32 ==> rsp.typ == "U32") && (typ == TReal ==> rsp.typ == "REAL")
  {
    hide ReadTag, AliasesPointBack, ValueText, TextOf, TypeSize;
    var typ := table[id - 1].typ;
    if typ != TOther {
      var r := ReadTag(table, mem, id, TypeSize(typ));
      if r.Ok? {
        ReadSize(table, mem, id, TypeSize(typ));
        TextOfValue(typ, r.value, realText);
      }
    }
  }

  /** The poll's choice by operation. */
  lemma AnswerByOp(table: seq<Entry>, mem: Memory, req: Protocol.Request, ulong: nat, lib: Lib)
    requires ulong > 0
    ensures var id := IdOf(table, req.name);
      && (id == 0 ==> Answer(table, mem, req, ulong, lib) == (Response(req.id, -2, "", "", "tag_not_found"), mem))
      && (id != 0 && req.op == 1 ==>
            Answer(table, mem, req, ulong, lib) == (ReadReply(table, mem, table[id - 1].typ, id, req.id, lib.realText), mem))
      && (id != 0 && req.op == 2 ==>
            Answer(table, mem, req, ulong, lib)
            == WriteReply(table, mem, table[id - 1].typ, id, req.id, req.value, ulong, lib.float, lib.junk))
      && (id != 0 && req.op != 1 && req.op != 2 ==>
            Answer(table, mem, req, ulong, lib) == (Response(req.id, -22, "", "", "bad_op"), mem))
  {
    hide IdOf, ReadReply, WriteReply;
  }

  /**
   The line READ name, answered by the poll: the memory stays as it is, and the reply says that there is no such tag, that
   it cannot be read and why, or its type and value.
   */
  lemma ReadLineAnswered(table: seq<Entry>, mem: Memory, name: string, reqId: u32, ulong: nat, lib: Lib)
    requires IsWord(name) && |name| <= 63 && ulong > 0 && AliasesPointBack(table)
    ensures RequestOf("READ " + name, reqId).Some?
    ensures var (rsp, u) := Answer(table, mem, RequestOf("READ " + name, reqId).value, ulong, lib);
      var id := IdOf(table, name);
      && u == mem
      && if id == 0 then rsp == Response(reqId, -2, "", "", "tag_not_found")
         else
           var typ := table[id - 1].typ;
           if typ == TOther then rsp == Response(reqId, -22, "", "", "read_failed")
           else
             match ReadTag(table, mem, id, TypeSize(typ))
             case Err(code) => rsp == Response(reqId, code, "", "", "read_failed")
             case Ok(bytes) =>
               && |bytes| == TypeSize(typ) && rsp.id == reqId && rsp.status == 0 && rsp.msg == ""
               && rsp.value == ValueText(typ, bytes, lib.realText)
               && (typ == TBool ==> rsp.typ == "BOOL") && (typ == TU8 ==> rsp.typ == "U8") && (typ == TU16 ==> rsp.typ == "U16")
               && (typ == TU32 ==> rsp.typ == "U32") && (typ == TReal ==> rsp.typ == "REAL")
  {
    hide RequestOf, IdOf, ReadTag, ReadReply, WriteReply, AliasesPointBack, ValueText, TextOf, TypeSize, Answer, IsWord;
    ReadRequest(name, reqId);
    AnswerByOp(table, mem, Protocol.Request(reqId, 1, name, ""), ulong, lib);
    var id := IdOf(table, name);
    if id != 0 {
      ReadReplyMeans(table, mem, id, reqId, lib.realText);
    }
  }

  // ---------------------------------------------------------------- WRITE

  /** The bytes that WRITE takes a text for, or the error code. */
  ghost function TextBytes(typ: TagType, text: string, ulong: nat, float: Option<Bytes4>): Result<seq<byte>>
    requires ulong > 0
  {
    match typ
    case TBool =>
      if BoolOfText(text) == Some(true) then Ok([1]) else if BoolOfText(text) == Some(false) then Ok([0]) else Err(-22)
    case TReal => if float.Some? then Ok(float.value) else Err(-22)
    case TOther => Err(-22)
    case _ => BytesOf(typ, text, ulong, None)
  }

  lemma TextBytesAre(typ: TagType, text: string, ulong: nat, float: Option<Bytes4>)
    requires ulong > 0
    ensures BytesOf(typ, text, ulong, float) == TextBytes(typ, text, ulong, float)
  {
    hide Strtoul, BoolOfText, Little, Rem32;
  }

  /**
   The line WRITE name value, answered by the poll: there is no such tag, the text is none of its type, the tag refuses it,
   or it is written. Only in the last case is the memory another, and the reply's status 0.
   */
  lemma WriteLineAnswered(table: seq<Entry>, mem: Memory, name: string, text: string, reqId: u32, ulong: nat, lib: Lib)
    requires IsWord(name) && |name| <= 63 && IsWord(text) && |text| <= 63 && ulong > 0
    ensures RequestOf("WRITE " + name + " " + text, reqId).Some?
    ensures var (rsp, u) := Answer(table, mem, RequestOf("WRITE " + name + " " + text, reqId).value, ulong, lib);
      var id := IdOf(table, name);
      if id == 0 then rsp == Response(reqId, -2, "", "", "tag_not_found") && u == mem
      else
        match TextBytes(table[id - 1].typ, text, ulong, lib.float)
        case Err(code) => rsp == Response(reqId, code, "", "", "write_failed") && u == mem
        case Ok(bytes) =>
          match WriteTag(table, mem, id, bytes, lib.junk)
          case Err(code) => rsp == Response(reqId, code, "", "", "write_failed") && u == mem && code != 0
          case Ok(after) => rsp == Response(reqId, 0, "", "", "") && u == after
  {
    hide RequestOf, IdOf, WriteTag, ReadReply, BytesOf, TextBytes, IsWord, Answer;
    WriteRequest(name, text, reqId);
    AnswerByOp(table, mem, Protocol.Request(reqId, 2, name, text), ulong, lib);
    var id := IdOf(table, name);
    if id != 0 {
      TextBytesAre(table[id - 1].typ, text, ulong, lib.float);
      var r := TextBytes(table[id - 1].typ, text, ulong, lib.float);
      if r.Ok? {
        WriteErrorIsNotZero(table, mem, id, r.value, lib.junk);
      }
    }
  }

  // ---------------------------------------------------------------- WRITE, then READ

  /** Two requests served by one poll, with room for both responses. */
  lemma TwoServed(table: seq<Entry>, s: PollState, ulong: nat, libs: seq<Lib>)
    requires ulong > 0 && |s.reqs| == |libs| == 2 && |s.rsps| <= 62
    ensures var first := Answer(table, s.mem, s.reqs[0], ulong, libs[0]);
      var second := Answer(table, first.1, s.reqs[1], ulong, libs[1]);
      AfterPoll(table, s, ulong, libs) == PollState(second.1, [], s.rsps + [first.0] + [second.0])
  {
    hide Answer;
    var first := Answer(table, s.mem, s.reqs[0], ulong, libs[0]);
    var s1 := PollState(first.1, s.reqs[1..], s.rsps + [first.0]);
    assert AfterPoll(table, s, ulong, libs) == AfterPoll(table, s1, ulong, libs[1..]);
    var second := Answer(table, first.1, s1.reqs[0], ulong, libs[1]);
    var s2 := PollState(second.1, s1.reqs[1..], s1.rsps + [second.0]);
    assert AfterPoll(table, s1, ulong, libs[1..]) == AfterPoll(table, s2, ulong, libs[1..][1..]);
    assert libs[1..][1..] == [] && s2.reqs == [];
  }

  lemma DecimalIsWord(n: u32)
    ensures IsWord(Decimal(n)) && |Decimal(n)| <= 63
  {
    DecimalOfWordFits(n);
    DigitsAreNoSpace();
    hide IsSpace;
  }

  lemma DigitsAreNoSpace()
    ensures forall c: char :: '0' <= c <= '9' ==> !IsSpace(c)
  {
  }

  /** What WRITE n leaves in a numeric tag, if it answers status 0, is what READ prints. */
  lemma NumberComesBack(table: seq<Entry>, mem: Memory, id: nat, n: u32, a: u32, b: u32, ulong: nat, lib: Lib, realText: string)
    requires AliasesPointBack(table) && 0 < id <= |table| && ulong >= U32
    requires table[id - 1].typ in {TU8, TU16, TU32}
    requires WriteReply(table, mem, table[id - 1].typ, id, a, Decimal(n), ulong, lib.float, lib.junk).0.status == 0
    ensures var typ := table[id - 1].typ;
      var after := WriteReply(table, mem, typ, id, a, Decimal(n), ulong, lib.float, lib.junk).1;
      ReadReply(table, after, typ, id, b, realText) == Response(b, 0, TypeName(typ), Decimal(n), "")
  {
    var typ := table[id - 1].typ;
    assert WriteReply(table, mem, typ, id, a, Decimal(n), ulong, lib.float, lib.junk)
        == WriteReply(table, mem, typ, id, a, Decimal(n), ulong, None, lib.junk) by {
      TextBytesAre(typ, Decimal(n), ulong, lib.float);
      TextBytesAre(typ, Decimal(n), ulong, None);
      hide BytesOf, WriteTag, Decimal;
    }
    AcceptedIsSmall(table, mem, typ, id, a, n, ulong, lib.junk);
    hide WriteReply, ReadReply, Decimal, Capacity, AliasesPointBack;
    WrittenNumberIsPrinted(table, mem, id, n, a, realText, ulong, lib.junk);
    OwnIdOnly(table, WriteReply(table, mem, typ, id, a, Decimal(n), ulong, None, lib.junk).1, typ, id, a, b, realText);
  }

  lemma AcceptedIsSmall(table: seq<Entry>, mem: Memory, typ: TagType, id: nat, a: u32, n: u32, ulong: nat, junk: Bytes4)
    requires typ in {TU8, TU16, TU32} && ulong >= U32
    requires WriteReply(table, mem, typ, id, a, Decimal(n), ulong, None, junk).0.status == 0
    ensures n < Capacity(TypeSize(typ))
  {
    CapacityOfSizes();
    StrtoulReadsDecimal(n, ulong);
    hide Strtoul, Decimal, Little, Capacity, BoolOfText, WriteTag, Rem32;
  }

  lemma OwnIdOnly(table: seq<Entry>, mem: Memory, typ: TagType, id: nat, a: u32, b: u32, realText: string)
    ensures ReadReply(table, mem, typ, id, b, realText) == ReadReply(table, mem, typ, id, a, realText).(id := b)
  {
    hide ReadTag, TextOf;
  }

  /**
   Two lines served by one poll: when WRITE name n is answered with status 0, the READ name behind it is answered with n,
   for every U8, U16 and U32 tag and every 32-bit n.
   */
  lemma WriteThenReadAnswers(table: seq<Entry>, mem: Memory, rsps: seq<Response>, name: string, n: u32, a: u32, b: u32,
    ulong: nat, libs: seq<Lib>)
    requires IsWord(name) && |name| <= 63 && ulong >= U32 && AliasesPointBack(table) && |libs| == 2 && |rsps| <= 62
    requires IdOf(table, name) != 0 && table[IdOf(table, name) - 1].typ in {TU8, TU16, TU32}
    ensures IsWord(Decimal(n))
    ensures RequestOf("WRITE " + name + " " + Decimal(n), a).Some? && RequestOf("READ " + name, b).Some?
    ensures var reqs := [RequestOf("WRITE " + name + " " + Decimal(n), a).value, RequestOf("READ " + name, b).value];
      var t := AfterPoll(table, PollState(mem, reqs, rsps), ulong, libs);
      && t.reqs == [] && |t.rsps| == |rsps| + 2 && rsps <= t.rsps
      && (t.rsps[|rsps|].status == 0 ==>
            && t.rsps[|rsps|] == Response(a, 0, "", "", "")
            && t.rsps[|rsps| + 1].id == b && t.rsps[|rsps| + 1].status == 0 && t.rsps[|rsps| + 1].value == Decimal(n))
  {
    hide RequestOf, IdOf, WriteReply, ReadReply, Decimal, AfterPoll, AliasesPointBack, IsWord;
    DecimalIsWord(n);
    WriteRequest(name, Decimal(n), a);
    ReadRequest(name, b);
    var reqs := [RequestOf("WRITE " + name + " " + Decimal(n), a).value, RequestOf("READ " + name, b).value];
    TwoServed(table, PollState(mem, reqs, rsps), ulong, libs);
    var id := IdOf(table, name);
    var typ := table[id - 1].typ;
    WriteStatus(table, mem, typ, id, a, Decimal(n), ulong, libs[0]);
    if WriteReply(table, mem, typ, id, a, Decimal(n), ulong, libs[0].float, libs[0].junk).0.status == 0 {
      NumberComesBack(table, mem, id, n, a, b, ulong, libs[0], libs[1].realText);
    }
  }

  lemma WriteStatus(table: seq<Entry>, mem: Memory, typ: TagType, id: nat, a: u32, text: string, ulong: nat, lib: Lib)
    requires ulong > 0
    ensures var rsp := WriteReply(table, mem, typ, id, a, text, ulong, lib.float, lib.junk).0;
      rsp.status == 0 ==> rsp == Response(a, 0, "", "", "")
  {
    var r := BytesOf(typ, text, ulong, lib.float);
    CodesAreNotZero(typ, text, ulong, lib.float);
    if r.Ok? {
      WriteErrorIsNotZero(table, mem, id, r.value, lib.junk);
    }
    hide BytesOf, WriteTag;
  }

  lemma CodesAreNotZero(typ: TagType, text: string, ulong: nat, float: Option<Bytes4>)
    requires ulong > 0
    ensures BytesOf(typ, text, ulong, float).Err? ==> BytesOf(typ, text, ulong, float).code != 0
  {
    hide Strtoul, BoolOfText, Little;
  }
}
