/**
 The request/response protocol over the byte-level rings (services/tcp/tag_tcp_server.c:146-175,
 core/ipc/tag_rpc_plc.c:254-309, core/ipc/tag_rpc.c:5-27, core/ipc/spsc_ring.c:20-68): the two threads of RpcProtocol,
 with every push and pop taken apart into its loads, copied bytes and store. Every such run refines a run of RpcProtocol.
 */
module RpcOverRings {
  import opened RpcText
  import opened Words
  import P = RpcProtocol
  import Spsc

  // ---------------------------------------------------------------- layout in memory

  /** A C string that fits a field of `n` bytes. */
  predicate TextFits(text: string, n: nat) {
    |text| < n && forall i :: 0 <= i < |text| ==> 0 < text[i] as int < 256
  }

  /** What the fields of TagRpcRequest_t can hold. */
  predicate FitsRequest(r: P.Request) {
    r.op < U32 && TextFits(r.name, 64) && TextFits(r.value, 64)
  }

  /** What the fields of TagRpcResponse_t can hold. */
  predicate FitsResponse(r: Response) {
    -0x8000_0000 <= r.status < 0x8000_0000 && TextFits(r.typ, 16) && TextFits(r.value, 64) && TextFits(r.msg, 64)
  }

  function Bytes(text: string): (b: Spsc.Elem)
    ensures |b| == |text|
  {
    if text == "" then [] else [ByteOf(text[0] as nat)] + Bytes(text[1..])
  }

  /** The text and zeros behind it. */
  function Field(text: string, n: nat): (b: Spsc.Elem)
    requires |text| <= n
    ensures |b| == n
  {
    Bytes(text) + seq(n - |text|, _ => 0)
  }

  /** The characters before the first zero byte. */
  function UpToNul(b: Spsc.Elem): string {
    if b == [] || b[0] == 0 then "" else [b[0] as int as char] + UpToNul(b[1..])
  }

  lemma {:induction false} FieldReadsBack(text: string, n: nat)
    requires TextFits(text, n)
    ensures UpToNul(Field(text, n)) == text
  {
    var b := Field(text, n);
    if text == "" {
      assert b[0] == 0;
    } else {
      assert ByteOf(text[0] as nat) as int == text[0] as int;
      assert b[0] as int == text[0] as int;
      FieldReadsBack(text[1..], n - 1);
      assert b[1..] == Field(text[1..], n - 1);
    }
  }

  function Unsigned32(n: int): nat {
    n % U32
  }

  function Signed32(n: nat): int {
    if n < 0x8000_0000 then n else n - U32
  }

  lemma SignedBack(n: int)
    requires -0x8000_0000 <= n < 0x8000_0000
    ensures Unsigned32(n) < U32 && Signed32(Unsigned32(n)) == n
  {
  }

  const REQ_SIZE: nat := 136
  const RSP_SIZE: nat := 152

  function OfRequest(r: P.Request): (e: Spsc.Elem)
    requires FitsRequest(r)
    ensures |e| == REQ_SIZE
  {
    Little(r.id, 4) + (Little(r.op, 4) + (Field(r.name, 64) + Field(r.value, 64)))
  }

  function ToRequest(e: Spsc.Elem): P.Request {
    if |e| == REQ_SIZE then
      P.Request(Rem32(Number(e[..4])), Number(e[4..8]), UpToNul(e[8..72]), UpToNul(e[72..]))
    else P.Request(0, 0, "", "")
  }

  function OfResponse(r: Response): (e: Spsc.Elem)
    requires FitsResponse(r)
    ensures |e| == RSP_SIZE
  {
    Little(r.id, 4) + (Little(Unsigned32(r.status), 4) + (Field(r.typ, 16) + (Field(r.value, 64) + Field(r.msg, 64))))
  }

  function ToResponse(e: Spsc.Elem): Response {
    if |e| == RSP_SIZE then
      Response(Rem32(Number(e[..4])), Signed32(Number(e[4..8])), UpToNul(e[8..24]), UpToNul(e[24..88]), UpToNul(e[88..]))
    else Response(0, 0, "", "", "")
  }

  lemma WordReadsBack(n: u32)
    ensures Number(Little(n, 4)) == n && Rem32(n) == n
  {
    CapacityOfSizes();
    NumberOfLittle(n, 4);
    SmallRemainder(n);
    hide Number, Little, Capacity, Rem32;
  }

  /** A request that fits its fields is read back as it was written. */
  lemma RequestReadsBack(r: P.Request)
    requires FitsRequest(r)
    ensures ToRequest(OfRequest(r)) == r
  {
    var e := OfRequest(r);
    WordReadsBack(r.id);
    WordReadsBack(r.op);
    FieldReadsBack(r.name, 64);
    FieldReadsBack(r.value, 64);
    hide Little, Field, Number, UpToNul, Rem32, TextFits;
    assert e[..4] == Little(r.id, 4) && e[4..8] == Little(r.op, 4);
    assert e[8..72] == Field(r.name, 64) && e[72..] == Field(r.value, 64);
  }

  /** The fields of a response lie one behind the other. */
  lemma FiveFields(a: Spsc.Elem, b: Spsc.Elem, c: Spsc.Elem, d: Spsc.Elem, e: Spsc.Elem)
    requires |a| == |b| == 4 && |c| == 16 && |d| == |e| == 64
    ensures var w := a + (b + (c + (d + e)));
      |w| == RSP_SIZE && w[..4] == a && w[4..8] == b && w[8..24] == c && w[24..88] == d && w[88..] == e
  {
  }

  lemma ResponseReadsBack(r: Response)
    requires FitsResponse(r)
    ensures ToResponse(OfResponse(r)) == r
  {
    hide Little, Field, Number, UpToNul, Rem32, Unsigned32, Signed32;
    FiveFields(Little(r.id, 4), Little(Unsigned32(r.status), 4), Field(r.typ, 16), Field(r.value, 64), Field(r.msg, 64));
    SignedBack(r.status);
    hide TextFits;
    WordReadsBack(r.id);
    WordReadsBack(Unsigned32(r.status));
    FieldReadsBack(r.typ, 16);
    FieldReadsBack(r.value, 64);
    FieldReadsBack(r.msg, 64);
  }

  // ---------------------------------------------------------------- the two threads

  /** The server inside its push, after a push that found the ring full, before the flag, or inside its pop. */
  datatype Server = Idle | Pushing(req: P.Request) | Refused | AtStop(req: P.Request) | Popping(req: P.Request)

  /** The poller inside its pop, computing, inside its push, or after a push that found the ring full. */
  datatype Poller =
    | Off
    | Polling(handled: nat)
    | Serving(handled: nat, req: P.Request)
    | Replying(handled: nat, req: P.Request, rsp: Response)
    | Losing(handled: nat)

  datatype State = State(
    reqRing: Spsc.State,
    rspRing: Spsc.State,
    server: Server,
    poller: Poller,
    stop: bool,
    nextId: u32,
    lost: nat,
    submitted: seq<P.Request>,
    served: seq<P.Served>,
    replies: seq<P.Reply>
  )

  datatype Action =
    | Submit(op: nat, name: string, value: string)
    | ServerPush(a: Spsc.Action)
    | LoadStop
    | ServerPop(a: Spsc.Action)
    | SetStop
    | BeginPoll
    | PollerPop(a: Spsc.Action)
    | PollEnd
    | Reply(computed: Response)
    | PollerPush(a: Spsc.Action)

  predicate PushGoesOn(a: Spsc.Action) {
    a.PushLoadWrite? || a.PushCopyByte? || a.PushPublish?
  }

  predicate PopGoesOn(a: Spsc.Action) {
    a.PopLoadRead? || a.PopLoadWrite? || a.PopCopyByte? || a.PopPublish?
  }

  ghost predicate Shape(s: State) {
    Spsc.Geometry(s.reqRing) && Spsc.Geometry(s.rspRing)
  }

  ghost predicate Full(ring: Spsc.State)
    requires Spsc.Geometry(ring)
  {
    |Spsc.Queue(ring)| >= ring.capacity
  }

  /** The push has copied everything and is about to publish. */
  ghost predicate Publishes(ring: Spsc.State, a: Spsc.Action) {
    a.PushPublish? && ring.producer.PCopying? && ring.producer.copied == |ring.producer.elem|
  }

  /** The pop has copied everything and is about to release the slot; `out` is what it returns. */
  ghost predicate Takes(ring: Spsc.State, a: Spsc.Action) {
    a.PopPublish? && ring.consumer.CCopying? && |ring.consumer.out| == ring.elemSize
  }

  /** The pop has found the ring empty and returns false. */
  ghost predicate FindsEmpty(ring: Spsc.State, a: Spsc.Action) {
    a.PopLoadWrite? && ring.consumer.CLoadedRead? && ring.consumer.read == ring.writeIndex
  }

  /** One atomic step. A full ring is decided when push loads the read index, so the history notes it there. */
  ghost function Step(s: State, action: Action): State
    requires Shape(s)
  {
    match action
    case Submit(op, name, value) =>
      var req := P.Request(s.nextId, op, name, value);
      if !s.server.Idle? || !FitsRequest(req) then s
      else
        var t := s.(reqRing := Spsc.Step(s.reqRing, Spsc.PushLoadRead(OfRequest(req))));
        if Full(s.reqRing) then
          t.(server := Refused, nextId := Add32(s.nextId, 1), submitted := s.submitted + [req],
             replies := s.replies + [P.QueueFull])
        else t.(server := Pushing(req))
    case ServerPush(a) =>
      if !PushGoesOn(a) then s
      else if s.server.Pushing? then
        var t := s.(reqRing := Spsc.Step(s.reqRing, a));
        if Publishes(s.reqRing, a) then
          t.(server := AtStop(s.server.req), nextId := Add32(s.nextId, 1), submitted := s.submitted + [s.server.req])
        else t
      else if s.server.Refused? && a.PushLoadWrite? then s.(reqRing := Spsc.Step(s.reqRing, a), server := Idle)
      else s
    case LoadStop =>
      if !s.server.AtStop? then s
      else if s.stop then s.(server := Idle, replies := s.replies + [P.Stopping])
      else s.(server := Popping(s.server.req))
    case ServerPop(a) =>
      if !s.server.Popping? || !PopGoesOn(a) then s
      else
        var t := s.(rspRing := Spsc.Step(s.rspRing, a));
        if FindsEmpty(s.rspRing, a) then t.(server := AtStop(s.server.req))
        else if Takes(s.rspRing, a) then
          var rsp := ToResponse(s.rspRing.consumer.out);
          if rsp.id == s.server.req.id then t.(server := Idle, replies := s.replies + [P.Formatted(rsp)])
          else t.(server := AtStop(s.server.req))
        else t
    case SetStop => s.(stop := true)
    case BeginPoll => if s.poller.Off? then s.(poller := Polling(0)) else s
    case PollEnd =>
      if s.poller.Polling? && s.poller.handled >= P.MAX_PER_CYCLE then s.(poller := Off) else s
    case PollerPop(a) =>
      if !s.poller.Polling? || s.poller.handled >= P.MAX_PER_CYCLE || !PopGoesOn(a) then s
      else
        var t := s.(reqRing := Spsc.Step(s.reqRing, a));
        if FindsEmpty(s.reqRing, a) then t.(poller := Off)
        else if Takes(s.reqRing, a) then t.(poller := Serving(s.poller.handled, ToRequest(s.reqRing.consumer.out)))
        else t
    case Reply(computed) =>
      if !s.poller.Serving? || !FitsResponse(computed) then s
      else
        var req, rsp := s.poller.req, computed.(id := s.poller.req.id);
        var t := s.(rspRing := Spsc.Step(s.rspRing, Spsc.PushLoadRead(OfResponse(rsp))));
        if Full(s.rspRing) then
          t.(poller := Losing(s.poller.handled + 1), lost := s.lost + 1, served := s.served + [P.Served(req, rsp)])
        else t.(poller := Replying(s.poller.handled, req, rsp))
    case PollerPush(a) =>
      if !PushGoesOn(a) then s
      else if s.poller.Replying? then
        var t := s.(rspRing := Spsc.Step(s.rspRing, a));
        if Publishes(s.rspRing, a) then
          t.(poller := Polling(s.poller.handled + 1), served := s.served + [P.Served(s.poller.req, s.poller.rsp)])
        else t
      else if s.poller.Losing? && a.PushLoadWrite? then
        s.(rspRing := Spsc.Step(s.rspRing, a), poller := Polling(s.poller.handled))
      else s
  }

  // ---------------------------------------------------------------- abstraction

  ghost function Requests(ring: Spsc.State): seq<P.Request>
    requires Spsc.Geometry(ring)
  {
    var q := Spsc.Queue(ring);
    seq(|q|, i requires 0 <= i < |q| => ToRequest(q[i]))
  }

  ghost function Responses(ring: Spsc.State): seq<Response>
    requires Spsc.Geometry(ring)
  {
    var q := Spsc.Queue(ring);
    seq(|q|, i requires 0 <= i < |q| => ToResponse(q[i]))
  }

  ghost function AbsServer(v: Server): P.Server {
    match v
    case Idle => P.Idle
    case Pushing(_) => P.Idle
    case Refused => P.Idle
    case AtStop(req) => P.AtStop(req)
    case Popping(req) => P.AtPop(req)
  }

  ghost function AbsPoller(v: Poller): P.Poller {
    match v
    case Off => P.Off
    case Polling(h) => P.Polling(h)
    case Serving(h, req) => P.Serving(h, req)
    case Replying(h, req, _) => P.Serving(h, req)
    case Losing(h) => P.Polling(h)
  }

  /** The protocol state that a byte-level state stands for. */
  ghost function Abs(s: State): P.State
    requires Shape(s)
  {
    P.State(AbsServer(s.server), AbsPoller(s.poller), s.stop, s.nextId, Requests(s.reqRing), Responses(s.rspRing),
            s.lost, s.submitted, s.served, s.replies)
  }

  // ---------------------------------------------------------------- invariant

  ghost predicate Accepted(ring: Spsc.State, e: Spsc.Elem) {
    match ring.producer
    case PLoadedRead(elem, r) => elem == e && Sub32(ring.writeIndex, r) < ring.capacity
    case PCopying(elem, _, _) => elem == e
    case PIdle => false
  }

  ghost predicate Rejected(ring: Spsc.State) {
    ring.producer.PLoadedRead? && Sub32(ring.writeIndex, ring.producer.read) >= ring.capacity
  }

  ghost predicate RingsOk(s: State) {
    && Spsc.Invariant(s.reqRing) && Spsc.Invariant(s.rspRing)
    && s.reqRing.capacity == s.rspRing.capacity == P.CAPACITY
    && s.reqRing.elemSize == REQ_SIZE && s.rspRing.elemSize == RSP_SIZE
  }

  ghost predicate ThreadsOk(s: State) {
    && (match s.server
        case Pushing(req) => FitsRequest(req) && Accepted(s.reqRing, OfRequest(req)) && req.id == s.nextId
        case Refused => Rejected(s.reqRing)
        case _ => s.reqRing.producer.PIdle?)
    && (s.server.Popping? || s.rspRing.consumer.CIdle?)
    && (match s.poller
        case Replying(_, req, rsp) => FitsResponse(rsp) && Accepted(s.rspRing, OfResponse(rsp)) && rsp.id == req.id
        case Losing(_) => Rejected(s.rspRing)
        case _ => s.rspRing.producer.PIdle?)
    && ((s.poller.Polling? && s.poller.handled < P.MAX_PER_CYCLE) || s.reqRing.consumer.CIdle?)
  }

  ghost predicate Invariant(s: State) {
    RingsOk(s) && ThreadsOk(s)
  }

  /** What a step of the pushing thread leaves alone in its ring, and what becomes of an accepted push. */
  lemma PushStep(ring: Spsc.State, a: Spsc.Action)
    requires Spsc.Invariant(ring) && (PushGoesOn(a) || a.PushLoadRead?)
    ensures var t := Spsc.Step(ring, a);
      && t.consumer == ring.consumer && t.capacity == ring.capacity && t.elemSize == ring.elemSize
      && (!Publishes(ring, a) ==> t.writeIndex == ring.writeIndex && Spsc.Queue(t) == Spsc.Queue(ring))
      && (Publishes(ring, a) ==> t.producer.PIdle? && Spsc.Queue(t) == Spsc.Queue(ring) + [ring.producer.elem])
      && (Publishes(ring, a) ==> |Spsc.Queue(ring)| < ring.capacity)
  {
    Spsc.StepRefinesBoundedQueue(ring, a);
    PushFrame(ring, a);
    hide Spsc.Step, Spsc.Queue, Spsc.Invariant;
  }

  lemma PushFrame(ring: Spsc.State, a: Spsc.Action)
    requires Spsc.Invariant(ring) && (PushGoesOn(a) || a.PushLoadRead?)
    ensures var t := Spsc.Step(ring, a);
      && t.consumer == ring.consumer && t.capacity == ring.capacity && t.elemSize == ring.elemSize
      && (!Publishes(ring, a) ==> t.writeIndex == ring.writeIndex)
      && (Publishes(ring, a) ==> t.producer.PIdle? && t != ring)
      && (a.PushPublish? && !Publishes(ring, a) ==> t == ring)
  {
    hide Slot, Index;
  }

  lemma AcceptedGoesOn(ring: Spsc.State, a: Spsc.Action, e: Spsc.Elem)
    requires Spsc.Invariant(ring) && Accepted(ring, e) && PushGoesOn(a) && !Publishes(ring, a)
    ensures Accepted(Spsc.Step(ring, a), e)
  {
    hide Slot, Index;
  }

  /** A call of push is accepted exactly when the ring is not full as it loads the read index. */
  lemma PushDecided(ring: Spsc.State, e: Spsc.Elem)
    requires Spsc.Invariant(ring) && ring.producer.PIdle? && |e| == ring.elemSize
    ensures var t := Spsc.Step(ring, Spsc.PushLoadRead(e));
      if Full(ring) then Rejected(t) else Accepted(t, e)
  {
    hide Slot;
  }

  lemma RejectedReturns(ring: Spsc.State)
    requires Spsc.Invariant(ring) && Rejected(ring)
    ensures Spsc.Step(ring, Spsc.PushLoadWrite).producer.PIdle?
  {
  }

  /** What a step of the popping thread leaves alone in its ring, and what it takes. */
  lemma PopStep(ring: Spsc.State, a: Spsc.Action)
    requires Spsc.Invariant(ring) && PopGoesOn(a)
    ensures var t := Spsc.Step(ring, a);
      && t.producer == ring.producer && t.writeIndex == ring.writeIndex
      && t.capacity == ring.capacity && t.elemSize == ring.elemSize
      && (!Takes(ring, a) ==> Spsc.Queue(t) == Spsc.Queue(ring))
      && (Takes(ring, a) ==> t.consumer.CIdle? && Spsc.Queue(ring) != [])
      && (Takes(ring, a) ==> ring.consumer.out == Spsc.Queue(ring)[0] && Spsc.Queue(t) == Spsc.Queue(ring)[1..])
      && (FindsEmpty(ring, a) ==> t.consumer.CIdle? && Spsc.Queue(ring) == [])
  {
    Spsc.StepRefinesBoundedQueue(ring, a);
    PopFrame(ring, a);
    if FindsEmpty(ring, a) {
      Spsc.PopRefusesIffEmpty(ring);
    }
    hide Spsc.Step, Spsc.Queue, Spsc.Invariant;
  }

  lemma PopFrame(ring: Spsc.State, a: Spsc.Action)
    requires Spsc.Invariant(ring) && PopGoesOn(a)
    ensures var t := Spsc.Step(ring, a);
      && t.producer == ring.producer && t.writeIndex == ring.writeIndex
      && t.capacity == ring.capacity && t.elemSize == ring.elemSize
      && (Takes(ring, a) ==> t.consumer.CIdle? && t != ring && t.popped == ring.popped + [ring.consumer.out])
      && (a.PopPublish? && !Takes(ring, a) ==> t == ring)
      && (FindsEmpty(ring, a) ==> t.consumer.CIdle?)
  {
    hide Slot, Index;
  }

  // ---------------------------------------------------------------- each step refines at most one protocol step

  /** The one protocol step that `action` amounts to, or none. */
  ghost function Meaning(s: State, action: Action): seq<P.Action>
    requires Shape(s)
  {
    match action
    case Submit(op, name, value) =>
      if s.server.Idle? && FitsRequest(P.Request(s.nextId, op, name, value)) && Full(s.reqRing)
      then [P.Submit(op, name, value)] else []
    case ServerPush(a) =>
      if s.server.Pushing? && Publishes(s.reqRing, a) then
        [P.Submit(s.server.req.op, s.server.req.name, s.server.req.value)]
      else []
    case LoadStop => [P.LoadStop]
    case ServerPop(a) =>
      if s.server.Popping? && (FindsEmpty(s.rspRing, a) || Takes(s.rspRing, a)) then [P.TakeReply] else []
    case SetStop => [P.SetStop]
    case BeginPoll => if s.poller.Losing? then [] else [P.BeginPoll]
    case PollEnd => if s.poller.Polling? && s.poller.handled >= P.MAX_PER_CYCLE then [P.PollPop] else []
    case PollerPop(a) =>
      if s.poller.Polling? && s.poller.handled < P.MAX_PER_CYCLE && (FindsEmpty(s.reqRing, a) || Takes(s.reqRing, a))
      then [P.PollPop] else []
    case Reply(computed) =>
      if s.poller.Serving? && FitsResponse(computed) && Full(s.rspRing) then [P.PollReply(computed)] else []
    case PollerPush(a) =>
      if s.poller.Replying? && Publishes(s.rspRing, a) then [P.PollReply(s.poller.rsp)] else []
  }

  ghost predicate Refines(s: State, t: State, acts: seq<P.Action>) {
    Shape(s) && Invariant(t) && Shape(t) && Abs(t) == P.Run(Abs(s), acts)
  }

  lemma OneStep(s: P.State, a: P.Action)
    ensures P.Run(s, [a]) == P.Step(s, a) && P.Run(s, []) == s
  {
    hide P.Step;
    assert [a][..0] == [];
  }

  lemma RequestsFollow(ring: Spsc.State, t: Spsc.State)
    requires Spsc.Geometry(ring) && Spsc.Geometry(t)
    ensures Spsc.Queue(t) == Spsc.Queue(ring) ==> Requests(t) == Requests(ring)
    ensures forall e :: Spsc.Queue(t) == Spsc.Queue(ring) + [e] ==> Requests(t) == Requests(ring) + [ToRequest(e)]
    ensures Spsc.Queue(ring) != [] && Spsc.Queue(t) == Spsc.Queue(ring)[1..] ==>
      Requests(ring)[0] == ToRequest(Spsc.Queue(ring)[0]) && Requests(t) == Requests(ring)[1..]
  {
    hide Spsc.Queue, ToRequest, ToResponse;
  }

  lemma ResponsesFollow(ring: Spsc.State, t: Spsc.State)
    requires Spsc.Geometry(ring) && Spsc.Geometry(t)
    ensures Spsc.Queue(t) == Spsc.Queue(ring) ==> Responses(t) == Responses(ring)
    ensures forall e :: Spsc.Queue(t) == Spsc.Queue(ring) + [e] ==> Responses(t) == Responses(ring) + [ToResponse(e)]
    ensures Spsc.Queue(ring) != [] && Spsc.Queue(t) == Spsc.Queue(ring)[1..] ==>
      Responses(ring)[0] == ToResponse(Spsc.Queue(ring)[0]) && Responses(t) == Responses(ring)[1..]
  {
    hide Spsc.Queue, ToRequest, ToResponse;
  }

  lemma SubmitRefines(s: State, op: nat, name: string, value: string)
    requires Invariant(s)
    ensures Refines(s, Step(s, Submit(op, name, value)), Meaning(s, Submit(op, name, value)))
  {
    var action := Submit(op, name, value);
    var t := Step(s, action);
    OneStep(Abs(s), P.Submit(op, name, value));
    var req := P.Request(s.nextId, op, name, value);
    if s.server.Idle? && FitsRequest(req) {
      var e := OfRequest(req);
      Spsc.StepKeepsInvariant(s.reqRing, Spsc.PushLoadRead(e));
      PushStep(s.reqRing, Spsc.PushLoadRead(e));
      PushDecided(s.reqRing, e);
      RequestsFollow(s.reqRing, t.reqRing);
      hide Spsc.Step, Spsc.Invariant, Requests, Responses, P.Run, Accepted, Rejected, OfRequest, OfResponse;
    }
  }

  lemma ServerPushKeepsInvariant(s: State, a: Spsc.Action)
    requires Invariant(s)
    ensures Invariant(Step(s, ServerPush(a))) && Shape(Step(s, ServerPush(a)))
  {
    if PushGoesOn(a) && (s.server.Pushing? || s.server.Refused?) {
      Spsc.StepKeepsInvariant(s.reqRing, a);
      PushStep(s.reqRing, a);
      if s.server.Pushing? && !Publishes(s.reqRing, a) {
        AcceptedGoesOn(s.reqRing, a, OfRequest(s.server.req));
      }
      if s.server.Refused? && a.PushLoadWrite? {
        RejectedReturns(s.reqRing);
      }
      hide Spsc.Step, Spsc.Queue, OfRequest, OfResponse, FitsRequest, FitsResponse, Rejected;
      if s.server.Pushing? && Publishes(s.reqRing, a) {
        hide Accepted;
      }
    }
  }

  /** The thread's view of an accepted push: the element it publishes is that of its request. */
  lemma PublishedRequest(s: State, a: Spsc.Action)
    requires Invariant(s) && s.server.Pushing? && Publishes(s.reqRing, a)
    ensures ToRequest(s.reqRing.producer.elem) == s.server.req && s.server.req.id == s.nextId
  {
    RequestReadsBack(s.server.req);
    hide OfRequest, ToRequest, FitsRequest, Spsc.Invariant;
  }

  lemma ServerPushMeans(s: State, a: Spsc.Action)
    requires Invariant(s) && s.server.Pushing? && PushGoesOn(a) && Shape(Step(s, ServerPush(a)))
    ensures var t, req := Step(s, ServerPush(a)), s.server.req;
      Abs(t) == if Publishes(s.reqRing, a) then P.Step(Abs(s), P.Submit(req.op, req.name, req.value)) else Abs(s)
  {
    var t := Step(s, ServerPush(a));
    PushStep(s.reqRing, a);
    RequestsFollow(s.reqRing, t.reqRing);
    if Publishes(s.reqRing, a) {
      PublishedRequest(s, a);
      assert t == s.(reqRing := t.reqRing, server := AtStop(s.server.req), nextId := Add32(s.nextId, 1),
                     submitted := s.submitted + [s.server.req]);
      assert Requests(t.reqRing) == Requests(s.reqRing) + [s.server.req];
    } else {
      assert t == s.(reqRing := t.reqRing);
    }
    hide Step, Invariant, Spsc.Step, Spsc.Queue, Requests, Responses, ToRequest, ToResponse, Add32;
  }

  lemma ServerPushRefines(s: State, a: Spsc.Action)
    requires Invariant(s)
    ensures Refines(s, Step(s, ServerPush(a)), Meaning(s, ServerPush(a)))
  {
    ServerPushKeepsInvariant(s, a);
    OneStep(Abs(s), P.SetStop);
    if PushGoesOn(a) && s.server.Pushing? {
      OneStep(Abs(s), P.Submit(s.server.req.op, s.server.req.name, s.server.req.value));
      ServerPushMeans(s, a);
      hide Step, Abs, Invariant, P.Step, P.Run;
    } else if PushGoesOn(a) && s.server.Refused? {
      PushStep(s.reqRing, a);
      RequestsFollow(s.reqRing, Step(s, ServerPush(a)).reqRing);
      hide Spsc.Step, Spsc.Queue, Requests, Responses, Invariant, P.Run;
    }
  }

  /** A step inside the server's pop touches only the response ring, and leaves the pop when that is done. */
  lemma ServerPopChanges(s: State, a: Spsc.Action)
    requires Shape(s) && s.server.Popping? && PopGoesOn(a)
    ensures var t := Step(s, ServerPop(a));
      && t == s.(rspRing := Spsc.Step(s.rspRing, a), server := t.server, replies := t.replies)
      && (if FindsEmpty(s.rspRing, a) || Takes(s.rspRing, a) then t.server.AtStop? || t.server.Idle? else t.server.Popping?)
  {
    hide Spsc.Step, Spsc.Geometry, ToResponse, FindsEmpty, Takes;
  }

  /** The rings and threads after a step of a pop that the server goes on with, or returns from. */
  lemma ServerPopKeepsInvariant(s: State, a: Spsc.Action)
    requires Invariant(s)
    ensures Invariant(Step(s, ServerPop(a))) && Shape(Step(s, ServerPop(a)))
  {
    if s.server.Popping? && PopGoesOn(a) {
      Spsc.StepKeepsInvariant(s.rspRing, a);
      PopStep(s.rspRing, a);
      assert Shape(s) && Spsc.Geometry(Spsc.Step(s.rspRing, a));
      ServerPopChanges(s, a);
      hide Step, Spsc.Step, Spsc.Invariant, Spsc.Geometry, Spsc.Queue, FindsEmpty, Takes, FitsRequest, FitsResponse;
      hide OfRequest, OfResponse;
    }
  }

  lemma ServerPopMeans(s: State, a: Spsc.Action)
    requires Invariant(s) && s.server.Popping? && PopGoesOn(a) && Shape(Step(s, ServerPop(a)))
    ensures var t := Step(s, ServerPop(a));
      Abs(t) == if FindsEmpty(s.rspRing, a) || Takes(s.rspRing, a) then P.Step(Abs(s), P.TakeReply) else Abs(s)
  {
    hide Step, Invariant, Abs, P.Step, Spsc.Step, Spsc.Queue, Spsc.Invariant, Responses, ToResponse, FindsEmpty, Takes;
    RingsShape(s);
    var t := Step(s, ServerPop(a));
    PopStep(s.rspRing, a);
    var rsp := ServerPopShape(s, a);
    ResponsesFollow(s.rspRing, t.rspRing);
    ResponseCount(s.rspRing);
    ServerPopAbs(s, t, a, rsp);
  }

  lemma ServerPopShape(s: State, a: Spsc.Action) returns (rsp: Response)
    requires Shape(s) && s.server.Popping? && PopGoesOn(a)
    ensures Takes(s.rspRing, a) ==> s.rspRing.consumer.CCopying? && rsp == ToResponse(s.rspRing.consumer.out)
    ensures FindsEmpty(s.rspRing, a) ==> !Takes(s.rspRing, a)
    ensures var t, ring := Step(s, ServerPop(a)), Spsc.Step(s.rspRing, a);
      t == if FindsEmpty(s.rspRing, a) then s.(rspRing := ring, server := AtStop(s.server.req))
           else if !Takes(s.rspRing, a) then s.(rspRing := ring)
           else if rsp.id == s.server.req.id then
             s.(rspRing := ring, server := Idle, replies := s.replies + [P.Formatted(rsp)])
           else s.(rspRing := ring, server := AtStop(s.server.req))
  {
    hide Spsc.Step, ToResponse, Shape;
    rsp := if s.rspRing.consumer.CCopying? then ToResponse(s.rspRing.consumer.out) else ToResponse([]);
  }

  /** Nothing found, nothing taken, or the head taken: told about the queues of replies alone. */
  lemma ServerPopAbs(s: State, t: State, a: Spsc.Action, rsp: Response)
    requires Shape(s) && Shape(t) && s.server.Popping?
    requires var q, r := Responses(s.rspRing), Responses(t.rspRing);
      if FindsEmpty(s.rspRing, a) then
        !Takes(s.rspRing, a) && t == s.(rspRing := t.rspRing, server := AtStop(s.server.req)) && q == r == []
      else if !Takes(s.rspRing, a) then t == s.(rspRing := t.rspRing) && r == q
      else
        && q != [] && q[0] == rsp && r == q[1..]
        && t == if rsp.id == s.server.req.id then
                  s.(rspRing := t.rspRing, server := Idle, replies := s.replies + [P.Formatted(rsp)])
                else s.(rspRing := t.rspRing, server := AtStop(s.server.req))
    ensures Abs(t) == if FindsEmpty(s.rspRing, a) || Takes(s.rspRing, a) then P.Step(Abs(s), P.TakeReply) else Abs(s)
  {
    hide Requests, Responses, FindsEmpty, Takes, Shape;
  }

  lemma ServerPopRefines(s: State, a: Spsc.Action)
    requires Invariant(s)
    ensures Refines(s, Step(s, ServerPop(a)), Meaning(s, ServerPop(a)))
  {
    ServerPopKeepsInvariant(s, a);
    OneStep(Abs(s), P.TakeReply);
    if s.server.Popping? && PopGoesOn(a) {
      ServerPopMeans(s, a);
      hide Step, Abs, Invariant, P.Step, P.Run;
    }
  }

  lemma PollerPopChanges(s: State, a: Spsc.Action)
    requires Shape(s) && s.poller.Polling? && s.poller.handled < P.MAX_PER_CYCLE && PopGoesOn(a)
    ensures var t := Step(s, PollerPop(a));
      && t == s.(reqRing := Spsc.Step(s.reqRing, a), poller := t.poller)
      && (if FindsEmpty(s.reqRing, a) || Takes(s.reqRing, a) then t.poller.Off? || t.poller.Serving? else t.poller == s.poller)
  {
    hide Spsc.Step, Spsc.Geometry, ToRequest, FindsEmpty, Takes;
  }

  lemma PollerPopKeepsInvariant(s: State, a: Spsc.Action)
    requires Invariant(s)
    ensures Invariant(Step(s, PollerPop(a))) && Shape(Step(s, PollerPop(a)))
  {
    if s.poller.Polling? && s.poller.handled < P.MAX_PER_CYCLE && PopGoesOn(a) {
      Spsc.StepKeepsInvariant(s.reqRing, a);
      PopStep(s.reqRing, a);
      assert Shape(s) && Spsc.Geometry(Spsc.Step(s.reqRing, a));
      PollerPopChanges(s, a);
      hide Step, Spsc.Step, Spsc.Invariant, Spsc.Geometry, Spsc.Queue, FindsEmpty, Takes, FitsRequest, FitsResponse;
      hide OfRequest, OfResponse;
    }
  }

  lemma PollerPopMeans(s: State, a: Spsc.Action)
    requires Invariant(s) && s.poller.Polling? && s.poller.handled < P.MAX_PER_CYCLE && PopGoesOn(a)
    requires Shape(Step(s, PollerPop(a)))
    ensures var t := Step(s, PollerPop(a));
      Abs(t) == if FindsEmpty(s.reqRing, a) || Takes(s.reqRing, a) then P.Step(Abs(s), P.PollPop) else Abs(s)
  {
    var t := Step(s, PollerPop(a));
    PopStep(s.reqRing, a);
    RequestsFollow(s.reqRing, t.reqRing);
    assert |Requests(s.reqRing)| == |Spsc.Queue(s.reqRing)|;
    hide Invariant, Spsc.Step, Spsc.Queue, Requests, Responses, ToRequest, ToResponse;
  }

  lemma PollerPopRefines(s: State, a: Spsc.Action)
    requires Invariant(s)
    ensures Refines(s, Step(s, PollerPop(a)), Meaning(s, PollerPop(a)))
  {
    PollerPopKeepsInvariant(s, a);
    OneStep(Abs(s), P.PollPop);
    if s.poller.Polling? && s.poller.handled < P.MAX_PER_CYCLE && PopGoesOn(a) {
      PollerPopMeans(s, a);
      hide Step, Abs, Invariant, P.Step, P.Run;
    }
  }

  lemma ReplyRefines(s: State, computed: Response)
    requires Invariant(s)
    ensures Refines(s, Step(s, Reply(computed)), Meaning(s, Reply(computed)))
  {
    RingsShape(s);
    OneStep(Abs(s), P.PollReply(computed));
    if s.poller.Serving? && FitsResponse(computed) {
      ReplyKeepsInvariant(s, computed);
      ReplyMeans(s, computed);
    }
    hide Spsc.Step, Spsc.Invariant, Requests, Responses, P.Run, P.Step, Accepted, Rejected, OfRequest, OfResponse;
  }

  lemma ReplyKeepsInvariant(s: State, computed: Response)
    requires Invariant(s) && s.poller.Serving? && FitsResponse(computed)
    ensures Shape(s) && Invariant(Step(s, Reply(computed))) && Shape(Step(s, Reply(computed)))
  {
    hide Spsc.Step, Spsc.Invariant, Spsc.Queue, Accepted, Rejected, OfRequest, OfResponse, FitsRequest;
    RingsShape(s);
    var e := OfResponse(computed.(id := s.poller.req.id));
    Spsc.StepKeepsInvariant(s.rspRing, Spsc.PushLoadRead(e));
    PushStep(s.rspRing, Spsc.PushLoadRead(e));
    PushDecided(s.rspRing, e);
    RingsMeanShape(Step(s, Reply(computed)));
  }

  lemma RingsMeanShape(s: State)
    requires RingsOk(s)
    ensures Shape(s)
  {
  }

  lemma ReplyMeans(s: State, computed: Response)
    requires Invariant(s) && s.poller.Serving? && FitsResponse(computed) && Shape(s)
    requires Shape(Step(s, Reply(computed)))
    ensures Abs(Step(s, Reply(computed))) == if Full(s.rspRing) then P.Step(Abs(s), P.PollReply(computed)) else Abs(s)
  {
    hide Spsc.Step, Spsc.Invariant, Spsc.Queue, Requests, Responses, OfResponse, Accepted, Rejected, FitsRequest;
    RingsShape(s);
    var t := Step(s, Reply(computed));
    var e := OfResponse(computed.(id := s.poller.req.id));
    PushStep(s.rspRing, Spsc.PushLoadRead(e));
    ResponsesFollow(s.rspRing, t.rspRing);
    ResponseCount(s.rspRing);
  }

  lemma PollerPushKeepsInvariant(s: State, a: Spsc.Action)
    requires Invariant(s)
    ensures Invariant(Step(s, PollerPush(a))) && Shape(Step(s, PollerPush(a)))
  {
    if PushGoesOn(a) && (s.poller.Replying? || s.poller.Losing?) {
      Spsc.StepKeepsInvariant(s.rspRing, a);
      PushStep(s.rspRing, a);
      if s.poller.Replying? && !Publishes(s.rspRing, a) {
        AcceptedGoesOn(s.rspRing, a, OfResponse(s.poller.rsp));
      }
      if s.poller.Losing? && a.PushLoadWrite? {
        RejectedReturns(s.rspRing);
      }
      hide Spsc.Step, Spsc.Queue, OfRequest, OfResponse, FitsRequest, FitsResponse, Rejected;
      if s.poller.Replying? && Publishes(s.rspRing, a) {
        hide Accepted;
      }
    }
  }

  lemma PublishedResponse(s: State, a: Spsc.Action)
    requires Invariant(s) && s.poller.Replying? && Publishes(s.rspRing, a)
    ensures ToResponse(s.rspRing.producer.elem) == s.poller.rsp && s.poller.rsp.id == s.poller.req.id
  {
    ResponseReadsBack(s.poller.rsp);
    hide OfResponse, ToResponse, FitsResponse, Spsc.Invariant;
  }

  lemma ReplyEnqueued(u: P.State, rsp: Response)
    requires u.poller.Serving? && rsp.id == u.poller.req.id && |u.rspQ| < P.CAPACITY
    ensures P.Step(u, P.PollReply(rsp))
         == u.(poller := P.Polling(u.poller.handled + 1), served := u.served + [P.Served(u.poller.req, rsp)],
               rspQ := u.rspQ + [rsp])
  {
  }

  lemma PollerPushChanges(s: State, a: Spsc.Action)
    requires Shape(s) && s.poller.Replying? && PushGoesOn(a)
    ensures var t, ring := Step(s, PollerPush(a)), Spsc.Step(s.rspRing, a);
      t == if Publishes(s.rspRing, a) then
             s.(rspRing := ring, poller := Polling(s.poller.handled + 1),
                served := s.served + [P.Served(s.poller.req, s.poller.rsp)])
           else s.(rspRing := ring)
  {
    hide Spsc.Step, Shape, Publishes;
  }

  /** The reply enqueued, told about the queues of replies alone. */
  lemma PublishedMeans(s: State, t: State)
    requires Shape(s) && Shape(t) && s.poller.Replying? && s.poller.rsp.id == s.poller.req.id
    requires t == s.(rspRing := t.rspRing, poller := Polling(s.poller.handled + 1),
                     served := s.served + [P.Served(s.poller.req, s.poller.rsp)])
    requires Responses(t.rspRing) == Responses(s.rspRing) + [s.poller.rsp] && |Responses(s.rspRing)| < P.CAPACITY
    ensures Abs(t) == P.Step(Abs(s), P.PollReply(s.poller.rsp))
  {
    hide P.Step, Requests, Responses, Shape;
    ReplyEnqueued(Abs(s), s.poller.rsp);
  }

  lemma SameResponses(s: State, t: State)
    requires Shape(s) && Shape(t) && t == s.(rspRing := t.rspRing) && Responses(t.rspRing) == Responses(s.rspRing)
    ensures Abs(t) == Abs(s)
  {
    hide Requests, Responses, Shape;
  }

  lemma PollerPushMeans(s: State, a: Spsc.Action)
    requires Invariant(s) && s.poller.Replying? && PushGoesOn(a) && Shape(Step(s, PollerPush(a)))
    ensures Abs(Step(s, PollerPush(a)))
         == if Publishes(s.rspRing, a) then P.Step(Abs(s), P.PollReply(s.poller.rsp)) else Abs(s)
  {
    hide Step, Invariant, Abs, P.Step, Spsc.Step, Spsc.Queue, Spsc.Invariant, Responses, ToResponse;
    RingsShape(s);
    var t := Step(s, PollerPush(a));
    PushStep(s.rspRing, a);
    PollerPushChanges(s, a);
    ResponsesFollow(s.rspRing, t.rspRing);
    if Publishes(s.rspRing, a) {
      PublishedResponse(s, a);
      ResponseCount(s.rspRing);
      assert Spsc.Queue(t.rspRing) == Spsc.Queue(s.rspRing) + [s.rspRing.producer.elem];
      PublishedMeans(s, t);
    } else {
      SameResponses(s, t);
    }
  }

  lemma ResponseCount(ring: Spsc.State)
    requires Spsc.Geometry(ring)
    ensures |Responses(ring)| == |Spsc.Queue(ring)|
  {
  }

  lemma LosingReturns(s: State, a: Spsc.Action)
    requires Invariant(s) && s.poller.Losing? && PushGoesOn(a) && Shape(Step(s, PollerPush(a)))
    ensures Abs(Step(s, PollerPush(a))) == Abs(s)
  {
    hide Spsc.Step, Spsc.Invariant, Spsc.Queue, Requests, Responses, Accepted, FitsRequest, OfRequest, OfResponse;
    RingsShape(s);
    PushStep(s.rspRing, a);
    ResponsesFollow(s.rspRing, Step(s, PollerPush(a)).rspRing);
  }

  lemma PollerPushRefines(s: State, a: Spsc.Action)
    requires Invariant(s)
    ensures Refines(s, Step(s, PollerPush(a)), Meaning(s, PollerPush(a)))
  {
    hide Abs, Invariant, Spsc.Step, P.Step, P.Run;
    RingsShape(s);
    PollerPushKeepsInvariant(s, a);
    OneStep(Abs(s), P.SetStop);
    if PushGoesOn(a) && s.poller.Replying? {
      OneStep(Abs(s), P.PollReply(s.poller.rsp));
      PollerPushMeans(s, a);
    } else if PushGoesOn(a) && s.poller.Losing? {
      LosingReturns(s, a);
    }
  }

  lemma FlagsKeepInvariant(s: State, action: Action)
    requires Invariant(s) && (action.LoadStop? || action.SetStop? || action.BeginPoll? || action.PollEnd?)
    ensures Shape(s) && Invariant(Step(s, action))
    ensures var t := Step(s, action);
      t == s.(server := t.server, poller := t.poller, stop := t.stop, replies := t.replies)
  {
    hide RingsOk, Shape, Accepted, Rejected, OfRequest, OfResponse, FitsRequest, FitsResponse;
    RingsShape(s);
  }

  lemma RingsShape(s: State)
    requires Invariant(s)
    ensures Shape(s) && Spsc.Invariant(s.reqRing) && Spsc.Invariant(s.rspRing)
    ensures s.reqRing.capacity == s.rspRing.capacity == P.CAPACITY
    ensures forall t: State :: RingsOk(s) && t.reqRing == s.reqRing && t.rspRing == s.rspRing ==> RingsOk(t)
  {
    hide ThreadsOk;
  }

  lemma FlagsMean(s: State, action: Action)
    requires Shape(s) && Shape(Step(s, action))
    requires action.LoadStop? || action.SetStop? || action.BeginPoll? || action.PollEnd?
    ensures var meaning := Meaning(s, action);
      Abs(Step(s, action)) == if meaning == [] then Abs(s) else P.Step(Abs(s), meaning[0])
    ensures |Meaning(s, action)| <= 1
  {
    hide Shape, Requests, Responses;
  }

  /** The steps that touch no ring. */
  lemma FlagsRefine(s: State, action: Action)
    requires Invariant(s) && (action.LoadStop? || action.SetStop? || action.BeginPoll? || action.PollEnd?)
    ensures Refines(s, Step(s, action), Meaning(s, action))
  {
    hide Invariant, Step, Abs, P.Step, P.Run, Meaning;
    FlagsKeepInvariant(s, action);
    var meaning := Meaning(s, action);
    FlagsMean(s, action);
    OneStep(Abs(s), if meaning == [] then P.SetStop else meaning[0]);
    assert meaning == [] || meaning == [meaning[0]];
  }

  lemma StepRefines(s: State, action: Action)
    requires Invariant(s)
    ensures Refines(s, Step(s, action), Meaning(s, action))
  {
    hide *;
    match action
    case Submit(op, name, value) => SubmitRefines(s, op, name, value);
    case ServerPush(a) => ServerPushRefines(s, a);
    case ServerPop(a) => ServerPopRefines(s, a);
    case PollerPop(a) => PollerPopRefines(s, a);
    case Reply(computed) => ReplyRefines(s, computed);
    case PollerPush(a) => PollerPushRefines(s, a);
    case _ => FlagsRefine(s, action);
  }

  // ---------------------------------------------------------------- whole runs

  ghost predicate Reaches(s: State, acts: seq<Action>, t: State)
    decreases |acts|
  {
    if acts == [] then t == s
    else Shape(s) && Reaches(Step(s, acts[0]), acts[1..], t)
  }

  ghost predicate Initial(s: State) {
    && Spsc.Initial(s.reqRing) && Spsc.Initial(s.rspRing)
    && s.reqRing.capacity == s.rspRing.capacity == P.CAPACITY
    && s.reqRing.elemSize == REQ_SIZE && s.rspRing.elemSize == RSP_SIZE
    && s.server.Idle? && s.poller.Off? && !s.stop && s.lost == 0
    && s.submitted == [] && s.served == [] && s.replies == []
  }

  lemma InitialRefines(s: State)
    requires Initial(s)
    ensures Invariant(s) && P.Initial(Abs(s))
  {
    assert Spsc.Queue(s.reqRing) == [] && Spsc.Queue(s.rspRing) == [];
  }

  lemma {:induction false} RunRefines(s: State, acts: seq<Action>, t: State) returns (meaning: seq<P.Action>)
    requires Invariant(s) && Reaches(s, acts, t)
    ensures Invariant(t) && Abs(t) == P.Run(Abs(s), meaning)
    decreases |acts|
  {
    if acts == [] {
      meaning := [];
    } else {
      StepRefines(s, acts[0]);
      var first := Meaning(s, acts[0]);
      hide Step, Meaning, P.Run, Abs;
      var rest := RunRefines(Step(s, acts[0]), acts[1..], t);
      P.RunConcat(Abs(s), first, rest);
      meaning := first + rest;
    }
  }

  /**
   The protocol's laws hold of the bytes: in every interleaving of single loads, copied bytes and stores on both rings,
   every formatted reply is the response computed for that very request, and until stop at most one request is under way,
   no response is lost and every reply is a formatted one.
   */
  lemma ByteLevelRunsObeyProtocol(s: State, acts: seq<Action>, t: State)
    requires Initial(s) && Reaches(s, acts, t)
    ensures |t.replies| <= |t.submitted| <= |t.replies| + 1
    ensures forall i :: 0 <= i < |t.replies| && t.replies[i].Formatted? ==>
        i < |t.served| && t.served[i] == P.Served(t.submitted[i], t.replies[i].rsp)
    ensures !t.stop ==> t.lost == 0 && forall i :: 0 <= i < |t.replies| ==> t.replies[i].Formatted?
  {
    InitialRefines(s);
    var meaning := RunRefines(s, acts, t);
    P.RepliesAnswerOwnRequests(Abs(s), meaning);
    if !t.stop {
      P.AtMostOneInFlightUntilStop(Abs(s), meaning);
    }
    hide Invariant, P.Run;
  }
}
