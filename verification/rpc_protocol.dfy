/**
 The request/response protocol between the TCP server thread (services/tcp/tag_tcp_server.c:146-175) and the poll of
 the PLC thread (core/ipc/tag_rpc_plc.c:254-309), over two rings of capacity 64 (core/ipc/tag_rpc.c:5-27). A ring is
 its queue here: module Spsc proves that the byte-level ring behaves as one.
 */
module RpcProtocol {
  import opened RpcText
  import opened Words

  const CAPACITY: nat := 64
  const MAX_PER_CYCLE: nat := 16

  /** op 1 reads, op 2 writes. */
  datatype Request = Request(id: u32, op: nat, name: string, value: string)

  /** handle_request between its steps: before loading stop_flag, and before popping a response. */
  datatype Server = Idle | AtStop(req: Request) | AtPop(req: Request)

  datatype Poller = Off | Polling(handled: nat) | Serving(handled: nat, req: Request)

  datatype Reply = Formatted(rsp: Response) | QueueFull | Stopping

  datatype Served = Served(req: Request, rsp: Response)

  /** Both threads, both queues, and the history: requests built, requests served, replies given to the client. */
  datatype State = State(
    server: Server,
    poller: Poller,
    stop: bool,
    nextId: u32,
    reqQ: seq<Request>,
    rspQ: seq<Response>,
    lost: nat,
    submitted: seq<Request>,
    served: seq<Served>,
    replies: seq<Reply>
  )

  datatype Action =
    | Submit(op: nat, name: string, value: string)
    | LoadStop
    | TakeReply
    | SetStop
    | BeginPoll
    | PollPop
    | PollReply(computed: Response)

  ghost predicate Initial(s: State) {
    && s.server.Idle? && s.poller.Off? && !s.stop && s.reqQ == [] && s.rspQ == [] && s.lost == 0
    && s.submitted == [] && s.served == [] && s.replies == []
  }

  /** One step of a thread; an action its thread cannot take now does nothing. The computed response is arbitrary. */
  ghost function Step(s: State, a: Action): State {
    match a
    case Submit(op, name, value) =>
      if !s.server.Idle? then s
      else
        var req := Request(s.nextId, op, name, value);
        var t := s.(nextId := Add32(s.nextId, 1), submitted := s.submitted + [req]);
        if |s.reqQ| >= CAPACITY then t.(replies := s.replies + [QueueFull])
        else t.(reqQ := s.reqQ + [req], server := AtStop(req))
    case LoadStop =>
      if !s.server.AtStop? then s
      else if s.stop then s.(server := Idle, replies := s.replies + [Stopping])
      else s.(server := AtPop(s.server.req))
    case TakeReply =>
      if !s.server.AtPop? then s
      else if s.rspQ == [] then s.(server := AtStop(s.server.req))
      else if s.rspQ[0].id == s.server.req.id then
        s.(server := Idle, rspQ := s.rspQ[1..], replies := s.replies + [Formatted(s.rspQ[0])])
      else s.(server := AtStop(s.server.req), rspQ := s.rspQ[1..])
    case SetStop => s.(stop := true)
    case BeginPoll => if s.poller.Off? then s.(poller := Polling(0)) else s
    case PollPop =>
      if !s.poller.Polling? then s
      else if s.poller.handled >= MAX_PER_CYCLE || s.reqQ == [] then s.(poller := Off)
      else s.(poller := Serving(s.poller.handled, s.reqQ[0]), reqQ := s.reqQ[1..])
    case PollReply(computed) =>
      if !s.poller.Serving? then s
      else
        var rsp := computed.(id := s.poller.req.id);
        var t := s.(poller := Polling(s.poller.handled + 1), served := s.served + [Served(s.poller.req, rsp)]);
        if |s.rspQ| < CAPACITY then t.(rspQ := s.rspQ + [rsp]) else t.(lost := s.lost + 1)
  }

  ghost function Run(s: State, acts: seq<Action>): State {
    if acts == [] then s else Step(Run(s, acts[..|acts| - 1]), acts[|acts| - 1])
  }

  // ---------------------------------------------------------------- invariant

  function InFlight(s: State): nat {
    |s.reqQ| + (if s.poller.Serving? then 1 else 0) + |s.rspQ|
  }

  /** Nothing is under way for an idle server, and exactly its own request for a waiting one. */
  ghost predicate OwnRequestOnly(s: State) {
    && s.lost == 0
    && (forall i :: 0 <= i < |s.replies| ==> s.replies[i].Formatted?)
    && match s.server
      case Idle => InFlight(s) == 0 && |s.served| == |s.replies| == |s.submitted|
      case AtStop(req) => Waiting(s, req)
      case AtPop(req) => Waiting(s, req)
  }

  ghost predicate Waiting(s: State, req: Request) {
    && InFlight(s) == 1 && |s.submitted| == |s.replies| + 1 && s.submitted[|s.replies|] == req
    && (s.reqQ != [] ==> s.reqQ[0] == req)
    && (s.poller.Serving? ==> s.poller.req == req)
    && (s.rspQ == [] ==> |s.served| == |s.replies|)
    && (s.rspQ != [] ==> s.rspQ[0].id == req.id && |s.served| == |s.replies| + 1
                         && s.served[|s.replies|] == Served(req, s.rspQ[0]))
  }

  ghost predicate RepliesMatch(s: State) {
    forall i :: 0 <= i < |s.replies| && s.replies[i].Formatted? ==>
      i < |s.submitted| && i < |s.served| && s.served[i] == Served(s.submitted[i], s.replies[i].rsp)
  }

  /** Stop has been requested and a request has already been given up because of it. */
  ghost predicate Abandoned(s: State) {
    s.stop && (Stopping in s.replies || QueueFull in s.replies)
  }

  ghost predicate Invariant(s: State) {
    && RepliesMatch(s)
    && (if Abandoned(s) then !s.server.AtPop? else OwnRequestOnly(s))
    && |s.replies| + (if s.server.Idle? then 0 else 1) == |s.submitted|
    && (s.poller.Polling? ==> s.poller.handled <= MAX_PER_CYCLE)
    && (s.poller.Serving? ==> s.poller.handled < MAX_PER_CYCLE)
  }

  lemma StepKeepsRepliesMatch(s: State, a: Action)
    requires Invariant(s)
    ensures RepliesMatch(Step(s, a))
  {
    var t := Step(s, a);
    forall i | 0 <= i < |t.replies| && t.replies[i].Formatted?
      ensures i < |t.submitted| && i < |t.served| && t.served[i] == Served(t.submitted[i], t.replies[i].rsp)
    {
      if i < |s.replies| {
        assert s.replies[i] == t.replies[i];
      } else {
        assert s.server.AtPop? && Waiting(s, s.server.req);
      }
    }
  }

  ghost predicate PollerAction(a: Action) {
    a.BeginPoll? || a.PollPop? || a.PollReply?
  }

  lemma PollerKeepsOwnRequest(s: State, a: Action)
    requires OwnRequestOnly(s) && PollerAction(a)
    ensures OwnRequestOnly(Step(s, a)) && !Abandoned(Step(s, a))
  {
    assert !s.server.Idle? ==> Waiting(s, s.server.req);
  }

  /** As long as the server does not look at a set stop flag, only its own request is under way. */
  lemma ServerKeepsOwnRequest(s: State, a: Action)
    requires OwnRequestOnly(s) && !PollerAction(a) && !(a.LoadStop? && s.server.AtStop? && s.stop)
    ensures OwnRequestOnly(Step(s, a)) && !Abandoned(Step(s, a))
  {
    assert !s.server.Idle? ==> Waiting(s, s.server.req);
  }

  lemma AbandonedStays(s: State, a: Action)
    requires Abandoned(s) && !s.server.AtPop?
    ensures Abandoned(Step(s, a)) && !Step(s, a).server.AtPop?
  {
    var t := Step(s, a);
    var i :| 0 <= i < |s.replies| && (s.replies[i] == Stopping || s.replies[i] == QueueFull);
    assert t.replies[i] == s.replies[i];
  }

  lemma StepKeepsInvariant(s: State, a: Action)
    requires Invariant(s)
    ensures Invariant(Step(s, a))
  {
    StepKeepsRepliesMatch(s, a);
    if Abandoned(s) {
      AbandonedStays(s, a);
    } else if a.LoadStop? && s.server.AtStop? && s.stop {
      assert Step(s, a).replies[|s.replies|] == Stopping;
    } else if PollerAction(a) {
      PollerKeepsOwnRequest(s, a);
    } else {
      ServerKeepsOwnRequest(s, a);
    }
    hide RepliesMatch, OwnRequestOnly, Abandoned;
  }

  lemma {:induction false} RunKeepsInvariant(s: State, acts: seq<Action>)
    requires Initial(s)
    ensures Invariant(Run(s, acts))
  {
    if acts != [] {
      RunKeepsInvariant(s, acts[..|acts| - 1]);
      StepKeepsInvariant(Run(s, acts[..|acts| - 1]), acts[|acts| - 1]);
    }
  }

  // ---------------------------------------------------------------- what clients see

  /**
   In every interleaving, before and after stop, every formatted reply is the response computed for that client's own
   request, and each request gets at most one reply, in order. The wrap of the 32-bit ids does not matter.
   */
  lemma RepliesAnswerOwnRequests(s: State, acts: seq<Action>)
    requires Initial(s)
    ensures var t := Run(s, acts);
      && |t.replies| <= |t.submitted| <= |t.replies| + 1
      && forall i :: 0 <= i < |t.replies| && t.replies[i].Formatted? ==>
          i < |t.served| && t.served[i] == Served(t.submitted[i], t.replies[i].rsp)
  {
    RunKeepsInvariant(s, acts);
  }

  /**
   Until stop is set at most one request is under way, so the queue is never full, no response is lost, and every
   client line gets its formatted reply.
   */
  lemma AtMostOneInFlightUntilStop(s: State, acts: seq<Action>)
    requires Initial(s) && !Run(s, acts).stop
    ensures var t := Run(s, acts);
      && InFlight(t) == (if t.server.Idle? then 0 else 1) && t.lost == 0
      && forall i :: 0 <= i < |t.replies| ==> t.replies[i].Formatted?
  {
    RunKeepsInvariant(s, acts);
  }

  lemma {:induction false} RunConcat(s: State, a: seq<Action>, b: seq<Action>)
    ensures Run(s, a + b) == Run(Run(s, a), b)
    decreases |b|
  {
    hide Step;
    if b == [] {
      assert a + b == a;
    } else {
      var n := |b| - 1;
      RunConcat(s, a, b[..n]);
      assert (a + b)[..|a + b| - 1] == a + b[..n];
    }
  }

  lemma RunAppend(s: State, acts: seq<Action>, a: Action)
    ensures Run(s, acts + [a]) == Step(Run(s, acts), a)
  {
    assert (acts + [a])[..|acts|] == acts;
  }

  /** A poll that may still handle a request puts the response for a waiting server into its queue. */
  lemma PollDelivers(t: State, computed: Response)
    requires Invariant(t) && !t.stop && !t.server.Idle?
    requires t.poller.Polling? ==> t.poller.handled < MAX_PER_CYCLE
    ensures var u := Step(Step(Step(t, BeginPoll), PollPop), PollReply(computed));
      && !u.stop && u.server == t.server && u.replies == t.replies
      && u.rspQ != [] && u.rspQ[0].id == t.server.req.id
  {
    assert Waiting(t, t.server.req);
    hide RepliesMatch;
  }

  /** One poll that handles one request, and one look by the server. */
  ghost function OneAnswer(computed: Response): seq<Action> {
    [BeginPoll] + [PollPop] + [PollReply(computed)] + [LoadStop] + [TakeReply]
  }

  /** The end of a poll that has handled its 16 requests, if that is where the poller stands, then one more. */
  ghost function Answering(t: State, computed: Response): seq<Action> {
    (if t.poller == Polling(MAX_PER_CYCLE) then [PollPop] else []) + OneAnswer(computed)
  }

  /** The client has got exactly one more reply than in `t`, and it is a formatted one. */
  ghost predicate Answered(t: State, u: State) {
    u.server.Idle? && |u.replies| == |t.replies| + 1 && u.replies[|t.replies|].Formatted?
  }

  lemma {:induction false} AnsweredAfter(s: State, acts: seq<Action>, computed: Response)
    requires Initial(s)
    requires var t := Run(s, acts); !t.stop && !t.server.Idle? && (t.poller.Polling? ==> t.poller.handled < MAX_PER_CYCLE)
    ensures Answered(Run(s, acts), Run(s, acts + OneAnswer(computed)))
  {
    RunKeepsInvariant(s, acts);
    PollDelivers(Run(s, acts), computed);
    hide Run, Invariant;
    var a1 := acts + [BeginPoll];
    var a2 := a1 + [PollPop];
    var a3 := a2 + [PollReply(computed)];
    RunAppend(s, acts, BeginPoll);
    RunAppend(s, a1, PollPop);
    RunAppend(s, a2, PollReply(computed));
    RunAppend(s, a3, LoadStop);
    RunAppend(s, a3 + [LoadStop], TakeReply);
    var u := Run(s, a3);
    assert u == Step(Step(Step(Run(s, acts), BeginPoll), PollPop), PollReply(computed));
    assert acts + OneAnswer(computed) == a3 + [LoadStop] + [TakeReply];
  }

  /** Nobody waits for ever on a running poller: in every waiting state before stop these steps deliver the reply. */
  lemma {:induction false} WaitingServerCanBeAnswered(s: State, acts: seq<Action>, computed: Response)
    requires Initial(s) && !Run(s, acts).stop && !Run(s, acts).server.Idle?
    ensures Answered(Run(s, acts), Run(s, acts + Answering(Run(s, acts), computed)))
  {
    RunKeepsInvariant(s, acts);
    var t := Run(s, acts);
    if t.poller == Polling(MAX_PER_CYCLE) {
      RunAppend(s, acts, PollPop);
      assert Run(s, acts + [PollPop]) == t.(poller := Off);
      AnsweredAfter(s, acts + [PollPop], computed);
      assert acts + Answering(t, computed) == acts + [PollPop] + OneAnswer(computed);
    } else {
      AnsweredAfter(s, acts, computed);
      assert acts + Answering(t, computed) == acts + OneAnswer(computed);
    }
    hide Run, Invariant, Step, OneAnswer;
  }

  ghost function GiveUps(n: nat): seq<Action> {
    if n == 0 then [] else GiveUps(n - 1) + [Submit(1, "", "")] + [LoadStop]
  }

  /** Once stop is set each further line leaves its request behind, so the queue does fill up. */
  lemma QueueFillsAfterStop(s: State)
    requires s.stop && s.server.Idle? && s.reqQ == []
    ensures Step(Run(s, GiveUps(CAPACITY)), Submit(1, "", "")).replies == Run(s, GiveUps(CAPACITY)).replies + [QueueFull]
  {
    QueueFillsBy(s, CAPACITY);
  }

  lemma {:induction false} QueueFillsBy(s: State, n: nat)
    requires s.stop && s.server.Idle? && s.reqQ == [] && n <= CAPACITY
    ensures var t := Run(s, GiveUps(n)); t.stop && t.server.Idle? && |t.reqQ| == n
  {
    if n > 0 {
      QueueFillsBy(s, n - 1);
      RunAppend(s, GiveUps(n - 1), Submit(1, "", ""));
      RunAppend(s, GiveUps(n - 1) + [Submit(1, "", "")], LoadStop);
      hide Run;
    }
  }
}
