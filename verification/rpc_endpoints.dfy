/**
 The two ends of the protocol as code: how the TCP server makes a request of a client line
 (services/tcp/tag_tcp_server.c:29-65 and 97-151), and the poll of the PLC thread over the real rings and the runtime
 (core/ipc/tag_rpc_plc.c:254-309).
 */
module RpcEndpoints {
  import opened RpcText
  import opened TagRuntime
  import opened Tags
  import opened Words
  import Protocol = RpcProtocol
  import Rings = Spsc

  const ENOENT: int := -2
  const NAME_MAX: nat := 64
  const VALUE_MAX: nat := 64

  // ---------------------------------------------------------------- client lines

  /** Length of the longest prefix without white space. */
  function WordRun(s: string): (n: nat)
    ensures n <= |s|
  {
    if s != [] && !IsSpace(s[0]) then 1 + WordRun(s[1..]) else 0
  }

  /** The next token, cut off to `room - 1` characters, and the position behind it. */
  function Token(line: string, cursor: nat, room: nat): (r: (Option<string>, nat))
    requires cursor <= |line| && room > 1
    ensures r.1 <= |line|
  {
    var from := cursor + SpaceRun(line[cursor..]);
    var n := WordRun(line[from..]);
    if n == 0 then (None, cursor) else (Some(line[from..from + Min(n, room - 1)]), from + n)
  }

  /** skip_ws */
  method SkipWs(line: string, cursor: nat) returns (p: nat)
    requires cursor <= |line|
    ensures p == cursor + SpaceRun(line[cursor..]) <= |line|
    ensures p < |line| ==> !IsSpace(line[p])
  {
    p := cursor;
    while p < |line| && IsSpace(line[p])
      invariant cursor <= p <= |line|
      invariant p + SpaceRun(line[p..]) == cursor + SpaceRun(line[cursor..])
    {
      assert line[p..][1..] == line[p + 1..];
      p := p + 1;
    }
  }

  /** The copy loop of parse_token. */
  method CopyWord(line: string, from: nat, room: nat) returns (out: string, p: nat)
    requires from <= |line| && room > 1
    ensures p == from + WordRun(line[from..]) <= |line|
    ensures out == line[from..from + Min(p - from, room - 1)]
  {
    p, out := from, "";
    while p < |line| && !IsSpace(line[p])
      invariant from <= p <= |line|
      invariant p + WordRun(line[p..]) == from + WordRun(line[from..])
      invariant out == line[from..from + Min(p - from, room - 1)]
    {
      if |out| + 1 < room {
        out := out + [line[p]];
      }
      assert line[p..][1..] == line[p + 1..];
      p := p + 1;
    }
    assert WordRun(line[p..]) == 0;
  }

  /** parse_token */
  method ParseToken(line: string, cursor: nat, room: nat) returns (token: Option<string>, next: nat)
    requires cursor <= |line| && room > 1
    ensures (token, next) == Token(line, cursor, room)
  {
    var p := SkipWs(line, cursor);
    if p == |line| {
      return None, cursor;
    }
    assert WordRun(line[p..]) > 0;
    hide SpaceRun, WordRun, IsSpace;
    var out;
    out, p := CopyWord(line, p, room);
    token, next := Some(out), p;
  }

  datatype Command = Command(op: nat, name: string, value: string)

  /** What handle_request makes of a line; None is the reply bad_cmd. */
  function CommandOf(line: string): Option<Command> {
    var (cmd, c1) := Token(line, 0, 16);
    if cmd == Some("READ") then
      var (name, _) := Token(line, c1, NAME_MAX);
      if name.None? then None else Some(Command(1, name.value, ""))
    else if cmd == Some("WRITE") then
      var (name, c2) := Token(line, c1, NAME_MAX);
      if name.None? then None
      else
        var (value, _) := Token(line, c2, VALUE_MAX);
        if value.None? then None else Some(Command(2, name.value, value.value))
    else None
  }

  method ParseLine(line: string) returns (r: Option<Command>)
    ensures r == CommandOf(line)
  {
    hide Token;
    var cmd, cursor := ParseToken(line, 0, 16);
    if cmd.None? {
      return None;
    }
    var name: Option<string>;
    if cmd.value == "READ" {
      name, cursor := ParseToken(line, cursor, NAME_MAX);
      if name.None? {
        return None;
      }
      return Some(Command(1, name.value, ""));
    }
    if cmd.value != "WRITE" {
      return None;
    }
    name, cursor := ParseToken(line, cursor, NAME_MAX);
    if name.None? {
      return None;
    }
    var value: Option<string>;
    value, cursor := ParseToken(line, cursor, VALUE_MAX);
    if value.None? {
      return None;
    }
    r := Some(Command(2, name.value, value.value));
  }

  predicate IsWord(s: string) {
    s != [] && forall i :: 0 <= i < |s| ==> !IsSpace(s[i])
  }

  lemma {:induction false} WordThenSpace(word: string, rest: string)
    requires forall i :: 0 <= i < |word| ==> !IsSpace(word[i])
    requires rest == [] || IsSpace(rest[0])
    ensures WordRun(word + rest) == |word|
  {
    if word != [] {
      assert (word + rest)[1..] == word[1..] + rest;
      WordThenSpace(word[1..], rest);
    } else {
      assert word + rest == rest;
    }
  }

  /** A word found at a place of the line, cut to its first `n` characters. */
  lemma WordInLine(line: string, from: nat, word: string, rest: string, n: nat)
    requires from <= |line| && line[from..] == word + rest && 0 < n <= |word|
    ensures from < |line| && from + n <= |line| && line[from..from + n] == word[..n] && line[from] == word[0]
  {
    var tail := line[from..];
    assert |tail| == |word| + |rest|;
    forall k | 0 <= k < n ensures line[from + k] == word[k] {
      assert line[from + k] == tail[k] == (word + rest)[k];
    }
  }

  /** Up to one blank, then a word, then the end or white space. */
  lemma TokenAt(line: string, cursor: nat, from: nat, word: string, rest: string, room: nat)
    requires cursor <= from <= cursor + 1 && from < |line| && room > 1 && IsWord(word)
    requires from == cursor + 1 ==> line[cursor] == ' '
    requires line[from..] == word + rest && (rest == [] || IsSpace(rest[0]))
    ensures Token(line, cursor, room) == (Some(word[..Min(|word|, room - 1)]), from + |word|)
  {
    var n := Min(|word|, room - 1);
    WordInLine(line, from, word, rest, n);
    BlankRun(line[cursor..], from - cursor);
    WordThenSpace(word, rest);
    hide SpaceRun, WordRun, IsWord, IsSpace;
  }

  lemma BlankRun(tail: string, n: nat)
    requires n < |tail| && n <= 1 && (n == 1 ==> tail[0] == ' ') && !IsSpace(tail[n])
    ensures SpaceRun(tail) == n
  {
  }

  lemma LineParts(line: string, cmd: string, name: string, rest: string)
    requires line == cmd + (" " + name + rest) && IsWord(name)
    ensures name != [] && line[0..] == line && |line| == |cmd| + 1 + |name| + |rest| && line[|cmd|] == ' ' && IsSpace(' ')
    ensures line[|cmd| + 1..] == name + rest && cmd[..|cmd|] == cmd && (" " + name + rest)[0] == ' '
  {
  }

  /** The first two tokens of a line. */
  lemma TwoTokens(line: string, cmd: string, name: string, rest: string)
    requires IsWord(cmd) && |cmd| < 16 && IsWord(name) && (rest == [] || IsSpace(rest[0]))
    requires line == cmd + (" " + name + rest)
    ensures Token(line, 0, 16) == (Some(cmd), |cmd|)
    ensures Token(line, |cmd|, NAME_MAX) == (Some(name[..Min(|name|, 63)]), |line| - |rest|)
  {
    hide Token, IsWord, IsSpace;
    LineParts(line, cmd, name, rest);
    TokenAt(line, 0, 0, cmd, " " + name + rest, 16);
    TokenAt(line, |cmd|, |cmd| + 1, name, rest, NAME_MAX);
  }

  /** The words of the lines below, apart. */
  lemma LineShapes(name: string, value: string)
    ensures "READ " + name == "READ" + (" " + name + "")
    ensures "WRITE " + name + " " + value == "WRITE" + (" " + name + (" " + value))
  {
    assert "READ " == "READ" + " " && "WRITE " == "WRITE" + " ";
  }

  lemma CommandWords()
    ensures IsWord("READ") && IsWord("WRITE")
  {
  }

  lemma ThreeTokens(line: string, cmd: string, name: string, value: string)
    requires IsWord(cmd) && |cmd| < 16 && IsWord(name) && IsWord(value)
    requires line == cmd + (" " + name + (" " + value))
    ensures Token(line, 0, 16) == (Some(cmd), |cmd|)
    ensures Token(line, |cmd|, NAME_MAX) == (Some(name[..Min(|name|, 63)]), |line| - |value| - 1)
    ensures Token(line, |line| - |value| - 1, VALUE_MAX) == (Some(value[..Min(|value|, 63)]), |line|)
  {
    hide Token;
    TwoTokens(line, cmd, name, " " + value);
    assert value + "" == value;
    TokenAt(line, |line| - |value| - 1, |line| - |value|, value, "", VALUE_MAX);
  }

  /** The lines a client writes mean what they say, except that names and values are cut off at 63 characters. */
  lemma ReadLineMeans(name: string)
    requires IsWord(name)
    ensures CommandOf("READ " + name) == Some(Command(1, name[..Min(|name|, 63)], ""))
  {
    LineShapes(name, "");
    CommandWords();
    hide Token, IsWord;
    TwoTokens("READ " + name, "READ", name, "");
  }

  lemma WriteLineMeans(name: string, value: string)
    requires IsWord(name) && IsWord(value)
    ensures CommandOf("WRITE " + name + " " + value) == Some(Command(2, name[..Min(|name|, 63)], value[..Min(|value|, 63)]))
  {
    LineShapes(name, value);
    CommandWords();
    hide Token, IsWord;
    ThreeTokens("WRITE " + name + " " + value, "WRITE", name, value);
  }

  lemma {:induction false} RunHasNoSpace(s: string, i: nat)
    requires i < WordRun(s)
    ensures !IsSpace(s[i])
    decreases i
  {
    if i > 0 {
      RunHasNoSpace(s[1..], i - 1);
    }
  }

  /** A token is never empty, holds no white space and fits its field. */
  lemma TokensAreShortWords(line: string, cursor: nat, room: nat)
    requires cursor <= |line| && room > 1 && Token(line, cursor, room).0.Some?
    ensures IsWord(Token(line, cursor, room).0.value) && |Token(line, cursor, room).0.value| < room
  {
    var from := cursor + SpaceRun(line[cursor..]);
    var word := Token(line, cursor, room).0.value;
    forall i | 0 <= i < |word| ensures !IsSpace(word[i]) {
      RunHasNoSpace(line[from..], i);
      assert word[i] == line[from..][i];
    }
  }

  lemma CommandNamesAreShortWords(line: string)
    requires CommandOf(line).Some?
    ensures IsWord(CommandOf(line).value.name) && |CommandOf(line).value.name| < NAME_MAX
  {
    var c1 := Token(line, 0, 16).1;
    hide Token;
    if Token(line, c1, NAME_MAX).0.Some? {
      TokensAreShortWords(line, c1, NAME_MAX);
    }
    hide IsWord;
  }

  /**
   Which names a client can ask for, over all lines: exactly the non-empty ones without white space of at most 63
   characters, while the table stores any non-empty name of up to 127.
   */
  lemma NameReachableIffShortWord(name: string)
    ensures (exists line :: CommandOf(line).Some? && CommandOf(line).value.name == name)
       <==> IsWord(name) && |name| < NAME_MAX
  {
    if IsWord(name) && |name| < NAME_MAX {
      ReadLineMeans(name);
      assert name[..|name|] == name;
      assert CommandOf("READ " + name).value.name == name;
    }
    hide CommandOf;
    forall line | CommandOf(line).Some? && CommandOf(line).value.name == name
      ensures IsWord(name) && |name| < NAME_MAX
    {
      CommandNamesAreShortWords(line);
    }
  }

  // ---------------------------------------------------------------- the poll

  /** What the C library and the stack contribute to one request. */
  datatype Lib = Lib(realText: string, float: Option<Bytes4>, junk: Bytes4)

  /** The response computed for one request, and the memory after it. */
  ghost function Answer(table: seq<Entry>, mem: Memory, req: Protocol.Request, ulong: nat, lib: Lib): (Response, Memory)
    requires ulong > 0
  {
    var id := IdOf(table, req.name);
    if id == 0 then (ErrorResponse(req.id, ENOENT, "tag_not_found"), mem)
    else
      var typ := table[id - 1].typ;
      if req.op == 1 then (ReadReply(table, mem, typ, id, req.id, lib.realText), mem)
      else if req.op == 2 then WriteReply(table, mem, typ, id, req.id, req.value, ulong, lib.float, lib.junk)
      else (ErrorResponse(req.id, EINVAL, "bad_op"), mem)
  }

  datatype PollState = PollState(mem: Memory, reqs: seq<Protocol.Request>, rsps: seq<Response>)

  /** Polling with room for one request per element of `libs`. */
  ghost function AfterPoll(table: seq<Entry>, s: PollState, ulong: nat, libs: seq<Lib>): PollState
    requires ulong > 0
    decreases |libs|
  {
    if libs == [] || s.reqs == [] then s
    else
      var (rsp, mem) := Answer(table, s.mem, s.reqs[0], ulong, libs[0]);
      var rsps := if |s.rsps| < Protocol.CAPACITY then s.rsps + [rsp] else s.rsps;
      AfterPoll(table, PollState(mem, s.reqs[1..], rsps), ulong, libs[1..])
  }

  /**
   The poll takes the oldest requests, as many as it may; each gets one response under its own id, in order, as long as
   the response ring has room; responses beyond that are lost, their requests are not served again.
   */
  lemma {:induction false} PollAnswersInOrder(table: seq<Entry>, s: PollState, ulong: nat, libs: seq<Lib>)
    requires ulong > 0 && |s.rsps| <= 64
    ensures var n := Min(|libs|, |s.reqs|);
      var t, answered := AfterPoll(table, s, ulong, libs), Min(n, 64 - |s.rsps|);
      && t.reqs == s.reqs[n..] && |t.rsps| == |s.rsps| + answered && s.rsps <= t.rsps
      && forall k :: 0 <= k < answered ==> t.rsps[|s.rsps| + k].id == s.reqs[k].id
    decreases |libs|
  {
    if libs != [] && s.reqs != [] {
      var (rsp, mem) := Answer(table, s.mem, s.reqs[0], ulong, libs[0]);
      AnswerKeepsId(table, s.mem, s.reqs[0], ulong, libs[0]);
      var rsps := if |s.rsps| < 64 then s.rsps + [rsp] else s.rsps;
      var next := PollState(mem, s.reqs[1..], rsps);
      hide Answer;
      PollAnswersInOrder(table, next, ulong, libs[1..]);
      var t := AfterPoll(table, s, ulong, libs);
      forall k | 0 <= k < Min(Min(|libs|, |s.reqs|), 64 - |s.rsps|) ensures t.rsps[|s.rsps| + k].id == s.reqs[k].id {
        if k > 0 {
          assert next.reqs[k - 1] == s.reqs[k];
        }
      }
    }
  }

  lemma AnswerKeepsId(table: seq<Entry>, mem: Memory, req: Protocol.Request, ulong: nat, lib: Lib)
    requires ulong > 0
    ensures Answer(table, mem, req, ulong, lib).0.id == req.id
  {
    hide IdOf, ReadTag, WriteTag, BytesOf, TextOf;
  }

  /** One request of tag_rpc_plc_poll. */
  method Serve(rt: Runtime, req: Protocol.Request, ulong: nat, lib: Lib) returns (rsp: Response)
    requires rt.Valid() && ulong > 0
    modifies rt`outputs, rt.procValues, rt.hmiValues
    ensures rt.Valid() && rt.Table() == old(rt.Table())
    ensures (rsp, rt.Mem()) == Answer(old(rt.Table()), old(rt.Mem()), req, ulong, lib)
  {
    var id := rt.FindId(req.name);
    hide ReadReply, WriteReply, IdOf;
    if id == 0 {
      return ErrorResponse(req.id, ENOENT, "tag_not_found");
    }
    var entry := rt.GetEntry(id);
    if entry.None? {
      return ErrorResponse(req.id, ENOENT, "tag_not_found");
    }
    if req.op == 1 {
      rsp := HandleRead(rt, entry.value.typ, id, req.id, lib.realText);
    } else if req.op == 2 {
      rsp := HandleWrite(rt, entry.value.typ, id, req.id, req.value, ulong, lib.float, lib.junk);
    } else {
      rsp := ErrorResponse(req.id, EINVAL, "bad_op");
    }
  }

  /** tag_rpc_plc_poll with max_per_cycle == |libs|. */
  method Poll(reqQ: Rings.SpscRing<Protocol.Request>, rspQ: Rings.SpscRing<Response>, rt: Runtime, ulong: nat, libs: seq<Lib>)
    requires reqQ.Valid() && rspQ.Valid() && rt.Valid() && ulong > 0
    requires reqQ.capacity == rspQ.capacity == Protocol.CAPACITY
    modifies reqQ`readIndex, rspQ`writeIndex, rspQ.storage, rt`outputs, rt.procValues, rt.hmiValues
    ensures reqQ.Valid() && rspQ.Valid() && rt.Valid() && rt.Table() == old(rt.Table())
    ensures PollState(rt.Mem(), reqQ.Contents(), rspQ.Contents())
         == AfterPoll(old(rt.Table()), old(PollState(rt.Mem(), reqQ.Contents(), rspQ.Contents())), ulong, libs)
  {
    hide Answer;
    ghost var table := rt.Table();
    ghost var start := PollState(rt.Mem(), reqQ.Contents(), rspQ.Contents());
    var handled := 0;
    while handled < |libs|
      invariant 0 <= handled <= |libs|
      invariant reqQ.Valid() && rspQ.Valid() && rt.Valid() && rt.Table() == table
      invariant AfterPoll(table, PollState(rt.Mem(), reqQ.Contents(), rspQ.Contents()), ulong, libs[handled..])
             == AfterPoll(table, start, ulong, libs)
    {
      assert libs[handled..][1..] == libs[handled + 1..];
      var req := reqQ.Pop();
      if req.Nothing? {
        break;
      }
      var rsp := Serve(rt, req.elem, ulong, libs[handled]);
      var _ := rspQ.Push(rsp);
      handled := handled + 1;
    }
  }
}
