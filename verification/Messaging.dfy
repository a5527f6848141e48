// Request/response messaging of one node (ceell/network/messaging.c): three response
// slots for its senders, three bounded queues and handler threads for its peers' requests.
// Each event is one critical section of one thread, so every run is an interleaving.
module Messaging {
  import opened Common

  // ---------------------------------------------------------------- messages

  type Priority = p: int | 0 <= p < 3
  type Uint16 = d: int | 0 <= d < 0x1_0000

  const CRITICAL: Priority := 0
  const NORMAL: Priority := 1
  const BULK: Priority := 2

  const ENOENT := 2
  const ENOMEM := 12
  const ETIMEDOUT := 116

  const PAYLOAD_LEN := 127
  const SERVICE_LEN := 31

  // A JSON field that may be missing leaves a null pointer behind.
  datatype Request = Request(
    number: int, fromId: int, toSvc: Option<string>, payload: Option<string>,
    priority: int, deadlineMs: int, sendTime: int)

  datatype Response = Response(number: int, fromId: int, status: int, payload: Option<string>, priority: int)

  // What decoding a datagram yields.
  datatype Body = Req(req: Request) | Rsp(rsp: Response) | Garbage

  // struct msg_dispatch_item; `src` is the sender's socket address.
  datatype Item = Item(
    payload: string, toSvc: string, number: int, fromId: int, priority: Priority,
    deadlineMs: int, sendTime: int, src: int)

  // The part of struct ceell_msg a response fills in.
  datatype Reply = Reply(status: int, payload: string, priority: Priority)

  const ZeroReply := Reply(0, "", CRITICAL)

  function Normalise(p: int): Priority {
    if 0 <= p < 3 then p else NORMAL
  }

  function Text(s: Option<string>, n: nat): string {
    if s.Some? then Truncate(s.value, n) else ""
  }

  function ItemOf(q: Request, src: int): Item {
    Item(Text(q.payload, PAYLOAD_LEN), Text(q.toSvc, SERVICE_LEN), q.number, q.fromId,
         Normalise(q.priority), q.deadlineMs, q.sendTime, src)
  }

  // ---------------------------------------------------------------- deadlines (ceell/network/msg_deadline.c)

  function DeadlineRemaining(deadlineMs: Uint16, sendTime: int, now: int): int {
    if deadlineMs == 0 then 0
    else
      var remaining := sendTime + deadlineMs - now;
      if remaining > 0x7FFF_FFFF then 0x7FFF_FFFF
      else if remaining < -0x8000_0000 then -0x8000_0000
      else remaining
  }

  predicate DeadlineExpired(deadlineMs: Uint16, sendTime: int, now: int) {
    deadlineMs != 0 && now >= sendTime + deadlineMs
  }

  // The handler's test, which narrows the received deadline to 16 bits.
  predicate TooLate(item: Item, now: int) {
    item.deadlineMs > 0 && DeadlineExpired(item.deadlineMs % 0x1_0000, item.sendTime, now)
  }

  // ---------------------------------------------------------------- state

  // Arguments of a send, with the peer's address and the time recorded for it.
  datatype Call = Call(
    service: string, payload: string, priority: Priority, deadlineMs: Uint16, dst: int, sendTime: int)

  // Where the one sender of a priority stands.
  datatype Phase =
    | Idle
    | Claimed(number: Uint32, call: Call)
    | Waiting(number: Uint32, call: Call)
    | Taken(number: Uint32, call: Call)

  // What a send gave back: a reply, or nothing on an error or a timeout.
  datatype Outcome = Outcome(number: Uint32, call: Call, reply: Option<Reply>)

  // A priority's response slot, its semaphore count, and its sender.
  datatype Client = Client(pendingSeq: Uint32, pending: Reply, sem: nat, phase: Phase, outcomes: seq<Outcome>)

  datatype Answer = Answer(item: Item, status: int, payload: string)

  // A priority's queue and handler thread, with the history of what it accepted,
  // answered and turned away.
  datatype Server = Server(
    queue: seq<Item>, handling: Option<Item>, accepted: seq<Item>, answered: seq<Answer>, rejected: seq<Answer>)

  datatype Lane = Lane(client: Client, server: Server)

  datatype Lanes = Lanes(critical: Lane, normal: Lane, bulk: Lane) {
    function Get(p: Priority): Lane {
      if p == CRITICAL then critical else if p == NORMAL then normal else bulk
    }

    function Set(p: Priority, lane: Lane): (r: Lanes)
      ensures r.Get(p) == lane
      ensures forall q: Priority :: q != p ==> r.Get(q) == Get(q)
    {
      if p == CRITICAL then this.(critical := lane)
      else if p == NORMAL then this.(normal := lane)
      else this.(bulk := lane)
    }
  }

  // `calls` is the history of claimed sends, over all priorities.
  datatype NodeState = NodeState(nextSeq: Uint32, calls: seq<Call>, lanes: Lanes)

  // What may come of calling a handler: payload in, status and text out. A service that is
  // registered only after messaging has started is not there from the start.
  datatype Service = Service(fromStart: bool, behaves: (string, int, string) -> bool)

  // Queue depth, the node's identity, and the services it has a handler for.
  datatype NodeConfig = NodeConfig(depth: nat, id: int, services: map<string, Service>)

  const IdleClient := Client(0, ZeroReply, 0, Idle, [])
  const EmptyServer := Server([], None, [], [], [])
  const EmptyLane := Lane(IdleClient, EmptyServer)
  const InitialNode := NodeState(1, [], Lanes(EmptyLane, EmptyLane, EmptyLane))

  // ---------------------------------------------------------------- events

  datatype Event =
    | Claim(call: Call)
    | Abort(pri: Priority)
    | Transmit(pri: Priority)
    | TimeOut(pri: Priority)
    | Take(pri: Priority)
    | CopyOut(pri: Priority)
    | Deliver(rsp: Response)
    | Arrive(req: Request, src: int)
    | Dequeue(pri: Priority)
    | Respond(pri: Priority, now: int, handled: Option<(int, string)>)

  // Which priority an event works on.
  function PriorityOf(e: Event): Priority {
    match e
    case Claim(call) => call.priority
    case Deliver(rsp) => Normalise(rsp.priority)
    case Arrive(req, _) => Normalise(req.priority)
    case Abort(p) => p
    case Transmit(p) => p
    case TimeOut(p) => p
    case Take(p) => p
    case CopyOut(p) => p
    case Dequeue(p) => p
    case Respond(p, _, _) => p
  }

  // Looking the item's service up and calling its handler can come to this; a handler
  // leaves a text that fits its buffer of 128 bytes.
  ghost predicate Handles(cfg: NodeConfig, item: Item, handled: Option<(int, string)>) {
    match handled
    case None => item.toSvc in cfg.services ==> !cfg.services[item.toSvc].fromStart
    case Some(result) =>
      && item.toSvc in cfg.services
      && cfg.services[item.toSvc].behaves(item.payload, result.0, result.1)
      && |result.1| <= 127
  }

  // Program order of the threads: one sender at a time per priority, a semaphore take
  // needs a count, a handler finishes one item before the next. Anything at all may be
  // delivered from the network at any time.
  ghost predicate Enabled(cfg: NodeConfig, lane: Lane, e: Event) {
    match e
    case Claim(_) => lane.client.phase.Idle?
    case Abort(_) => lane.client.phase.Claimed?
    case Transmit(_) => lane.client.phase.Claimed?
    case TimeOut(_) => lane.client.phase.Waiting? && lane.client.sem == 0
    case Take(_) => lane.client.phase.Waiting? && lane.client.sem > 0
    case CopyOut(_) => lane.client.phase.Taken?
    case Deliver(_) => true
    case Arrive(_, _) => true
    case Dequeue(_) => lane.server.handling.None? && |lane.server.queue| > 0
    case Respond(_, now, handled) =>
      lane.server.handling.Some? &&
      (TooLate(lane.server.handling.value, now) || Handles(cfg, lane.server.handling.value, handled))
  }

  function Finish(c: Client, reply: Option<Reply>): Client
    requires !c.phase.Idle?
  {
    c.(phase := Idle, outcomes := c.outcomes + [Outcome(c.phase.number, c.phase.call, reply)])
  }

  // Lines of ceell_msg_send_pri and handle_response that touch the slot.
  function ApplyClient(c: Client, nextSeq: Uint32, e: Event): Client {
    match e
    case Claim(call) => c.(pendingSeq := nextSeq, pending := ZeroReply, sem := 0, phase := Claimed(nextSeq, call))
    case Abort(_) => if c.phase.Idle? then c else Finish(c, None)
    case Transmit(_) => if c.phase.Claimed? then c.(phase := Waiting(c.phase.number, c.phase.call)) else c
    case TimeOut(_) => if c.phase.Idle? then c else Finish(c, None)
    case Take(_) =>
      if c.phase.Waiting? && c.sem > 0 then c.(sem := c.sem - 1, phase := Taken(c.phase.number, c.phase.call)) else c
    case CopyOut(p) => if c.phase.Idle? then c else Finish(c, Some(c.pending.(priority := p)))
    case Deliver(rsp) =>
      if ToUint32(rsp.number) == c.pendingSeq
      then c.(pending := Reply(rsp.status, Text(rsp.payload, PAYLOAD_LEN), Normalise(rsp.priority)), sem := 1)
      else c
    case _ => c
  }

  // What the handler thread answers.
  function AnswerTo(item: Item, now: int, handled: Option<(int, string)>): Answer {
    if TooLate(item, now) then Answer(item, -ETIMEDOUT, "deadline expired")
    else if handled.None? then Answer(item, -ENOENT, "unknown service")
    else Answer(item, handled.value.0, handled.value.1)
  }

  function ApplyServer(depth: nat, s: Server, e: Event): Server {
    match e
    case Arrive(req, src) =>
      var item := ItemOf(req, src);
      if |s.queue| < depth then s.(queue := s.queue + [item], accepted := s.accepted + [item])
      else s.(rejected := s.rejected + [QueueFull(item)])
    case Dequeue(_) =>
      if s.handling.None? && |s.queue| > 0 then s.(handling := Some(s.queue[0]), queue := s.queue[1..]) else s
    case Respond(_, now, handled) =>
      if s.handling.Some?
      then s.(handling := None, answered := s.answered + [AnswerTo(s.handling.value, now, handled)])
      else s
    case _ => s
  }

  function ApplyLane(cfg: NodeConfig, lane: Lane, nextSeq: Uint32, e: Event): Lane {
    Lane(ApplyClient(lane.client, nextSeq, e), ApplyServer(cfg.depth, lane.server, e))
  }

  function Apply(cfg: NodeConfig, n: NodeState, e: Event): NodeState {
    var p := PriorityOf(e);
    NodeState(if e.Claim? then ToUint32(n.nextSeq + 1) else n.nextSeq,
              if e.Claim? then n.calls + [e.call] else n.calls,
              n.lanes.Set(p, ApplyLane(cfg, n.lanes.Get(p), n.nextSeq, e)))
  }

  // The datagram an event sends, with its destination.
  function RequestOf(cfg: NodeConfig, number: Uint32, call: Call): Request {
    Request(ToInt32(number), cfg.id, Some(call.service), Some(call.payload),
            call.priority, call.deadlineMs, call.sendTime)
  }

  function ResponseOf(cfg: NodeConfig, p: Priority, a: Answer): Response {
    Response(a.item.number, cfg.id, a.status, Some(a.payload), p)
  }

  function QueueFull(item: Item): Answer {
    Answer(item, -ENOMEM, "queue full")
  }

  function Output(cfg: NodeConfig, n: NodeState, e: Event): Option<(int, Body)> {
    var lane := n.lanes.Get(PriorityOf(e));
    match e
    case Transmit(_) =>
      if lane.client.phase.Claimed?
      then Some((lane.client.phase.call.dst, Req(RequestOf(cfg, lane.client.phase.number, lane.client.phase.call))))
      else None
    case Arrive(req, src) =>
      if |lane.server.queue| < cfg.depth then None
      else Some((src, Rsp(ResponseOf(cfg, PriorityOf(e), QueueFull(ItemOf(req, src))))))
    case Respond(_, now, handled) =>
      if lane.server.handling.Some? then
        var item := lane.server.handling.value;
        Some((item.src, Rsp(ResponseOf(cfg, PriorityOf(e), AnswerTo(item, now, handled)))))
      else None
    case _ => None
  }

  function Run(cfg: NodeConfig, events: seq<Event>): NodeState {
    if |events| == 0 then InitialNode
    else Apply(cfg, Run(cfg, events[..|events| - 1]), events[|events| - 1])
  }

  ghost predicate Legal(cfg: NodeConfig, events: seq<Event>) {
    |events| == 0 ||
    (Legal(cfg, events[..|events| - 1]) &&
     Enabled(cfg, Run(cfg, events[..|events| - 1]).lanes.Get(PriorityOf(events[|events| - 1])), events[|events| - 1]))
  }

  // ---------------------------------------------------------------- sequence numbers

  // Casting a sequence number to int for the wire and back loses nothing.
  lemma SeqSurvivesTheWire(s: Uint32)
    ensures ToUint32(ToInt32(s)) == s
  {
  }

  // The sequence number given to the k-th send.
  function SeqOf(k: nat): Uint32 {
    ToUint32(1 + k)
  }

  lemma NextSeqOf(k: nat)
    ensures ToUint32(SeqOf(k) + 1) == SeqOf(k + 1) && SeqOf(0) == 1
  {
  }

  lemma {:induction false} SeqCounts(cfg: NodeConfig, events: seq<Event>)
    ensures Run(cfg, events).nextSeq == SeqOf(|Run(cfg, events).calls|)
  {
    hide ApplyLane, ToUint32, SeqOf;
    NextSeqOf(0);
    if |events| > 0 {
      SeqCounts(cfg, events[..|events| - 1]);
      NextSeqOf(|Run(cfg, events[..|events| - 1]).calls|);
    }
  }

  // The numbers the sends of a run drew, in order.
  function Numbers(cfg: NodeConfig, events: seq<Event>): seq<Uint32> {
    if |events| == 0 then []
    else
      var n := |events| - 1;
      Numbers(cfg, events[..n]) + (if events[n].Claim? then [Run(cfg, events[..n]).nextSeq] else [])
  }

  lemma {:induction false} NumbersCount(cfg: NodeConfig, events: seq<Event>)
    ensures |Numbers(cfg, events)| == |Run(cfg, events).calls|
    ensures forall k :: 0 <= k < |Numbers(cfg, events)| ==> Numbers(cfg, events)[k] == SeqOf(k)
  {
    hide ApplyLane, ToUint32, SeqOf;
    if |events| > 0 {
      NumbersCount(cfg, events[..|events| - 1]);
      SeqCounts(cfg, events[..|events| - 1]);
    }
  }

  // Each number is higher than the one before, except once in 2^32 sends.
  lemma NextIsHigherIff(k: nat)
    ensures SeqOf(k + 1) > SeqOf(k) <==> k % 0x1_0000_0000 != 0xFFFF_FFFE
  {
  }

  ghost predicate Ascending(numbers: seq<Uint32>) {
    forall j, k :: 0 <= j < k < |numbers| ==> numbers[j] < numbers[k]
  }

  ghost predicate PairwiseDistinct(numbers: seq<Uint32>) {
    forall j, k :: 0 <= j < k < |numbers| ==> numbers[j] != numbers[k]
  }

  // In a run of at most n sends the numbers go up, and 0 is not among them.
  ghost predicate GoesUp(cfg: NodeConfig, n: nat, events: seq<Event>) {
    Legal(cfg, events) && |Numbers(cfg, events)| <= n ==>
    Ascending(Numbers(cfg, events)) && 0 !in Numbers(cfg, events)
  }

  // In a run of at most n sends no number is drawn twice.
  ghost predicate NoneTwice(cfg: NodeConfig, n: nat, events: seq<Event>) {
    Legal(cfg, events) && |Numbers(cfg, events)| <= n ==> PairwiseDistinct(Numbers(cfg, events))
  }

  lemma EarlyNumbers(numbers: seq<Uint32>)
    requires forall k :: 0 <= k < |numbers| ==> numbers[k] == SeqOf(k)
    ensures |numbers| < TWO_TO_THE_32 ==> Ascending(numbers) && 0 !in numbers
    ensures |numbers| <= TWO_TO_THE_32 ==> PairwiseDistinct(numbers)
  {
    hide SeqOf;
    forall k | 0 <= k < |numbers| && k < TWO_TO_THE_32
      ensures numbers[k] == if k == TWO_TO_THE_32 - 1 then 0 else k + 1
    {
      EarlySeqOf(k);
    }
  }

  lemma EarlySeqOf(k: nat)
    requires k < TWO_TO_THE_32
    ensures SeqOf(k) == if k == TWO_TO_THE_32 - 1 then 0 else k + 1
  {
  }

  // Sequence numbers increase from send to send, and avoid the 0 of an unused slot, in all
  // runs of up to n sends exactly when n is below 2^32.
  lemma {:induction false} NumbersGoUpExactly(cfg: NodeConfig, n: nat)
    ensures (forall events :: GoesUp(cfg, n, events)) <==> n < TWO_TO_THE_32
  {
    hide Numbers, Legal, Run;
    if n < TWO_TO_THE_32 {
      forall events | |Numbers(cfg, events)| <= n
        ensures GoesUp(cfg, n, events)
      {
        NumbersCount(cfg, events);
        EarlyNumbers(Numbers(cfg, events));
      }
    } else {
      var events := ManySends(cfg, TWO_TO_THE_32);
      NumbersCount(cfg, events);
      assert Numbers(cfg, events)[TWO_TO_THE_32 - 1] == 0;
      assert !GoesUp(cfg, n, events);
    }
  }

  // They are drawn only once in all runs of up to n sends exactly when n is at most 2^32.
  lemma {:induction false} NumbersDistinctExactly(cfg: NodeConfig, n: nat)
    ensures (forall events :: NoneTwice(cfg, n, events)) <==> n <= TWO_TO_THE_32
  {
    hide Numbers, Legal, Run;
    if n <= TWO_TO_THE_32 {
      forall events | |Numbers(cfg, events)| <= n
        ensures NoneTwice(cfg, n, events)
      {
        NumbersCount(cfg, events);
        EarlyNumbers(Numbers(cfg, events));
      }
    } else {
      var events := ManySends(cfg, TWO_TO_THE_32 + 1);
      NumbersCount(cfg, events);
      assert Numbers(cfg, events)[TWO_TO_THE_32] == Numbers(cfg, events)[0];
      assert !NoneTwice(cfg, n, events);
    }
  }

  // A run of any number of sends, each given up before anything is transmitted.
  lemma {:induction false} ManySends(cfg: NodeConfig, n: nat) returns (events: seq<Event>)
    ensures Legal(cfg, events) && |Run(cfg, events).calls| == n
    ensures Run(cfg, events).lanes.Get(NORMAL).client.phase.Idle?
  {
    if n == 0 {
      events := [];
    } else {
      var front := ManySends(cfg, n - 1);
      events := OneMoreSend(cfg, front);
    }
  }

  lemma OneMoreSend(cfg: NodeConfig, front: seq<Event>) returns (events: seq<Event>)
    requires Legal(cfg, front) && Run(cfg, front).lanes.Get(NORMAL).client.phase.Idle?
    ensures Legal(cfg, events) && |Run(cfg, events).calls| == |Run(cfg, front).calls| + 1
    ensures Run(cfg, events).lanes.Get(NORMAL).client.phase.Idle?
  {
    var claimed := front + [Claim(Call("", "", NORMAL, 0, 0, 0))];
    events := claimed + [Abort(NORMAL)];
    assert claimed[..|front|] == front && events[..|claimed|] == claimed;
    assert Run(cfg, claimed).lanes.Get(NORMAL).client.phase.Claimed?;
    assert Legal(cfg, claimed);
  }

  // Deadlines agree: a message has expired exactly when it has one and no time remains,
  // clamping included.
  lemma ExpiredIffNothingRemains(deadlineMs: Uint16, sendTime: int, now: int)
    ensures DeadlineExpired(deadlineMs, sendTime, now) <==>
      deadlineMs != 0 && DeadlineRemaining(deadlineMs, sendTime, now) <= 0
  {
  }

  // The remaining time is how long it is until the message expires: short of the clamp, it
  // has expired after that time and not a millisecond before.
  lemma RemainingIsTimeToExpiry(deadlineMs: Uint16, sendTime: int, now: int)
    requires deadlineMs != 0
    ensures var left := DeadlineRemaining(deadlineMs, sendTime, now);
      && -0x8000_0000 <= left <= 0x7FFF_FFFF
      && (DeadlineExpired(deadlineMs, sendTime, now + left) || left == 0x7FFF_FFFF)
      && (!DeadlineExpired(deadlineMs, sendTime, now + left - 1) || left == -0x8000_0000)
  {
  }

  predicate Late(item: Item, now: int) {
    item.deadlineMs > 0 && now >= item.sendTime + item.deadlineMs
  }

  // The handler's verdict is that of the deadline as received, at all times, exactly for
  // deadlines below 2^16, which are all a sender can set; a larger one is narrowed.
  lemma {:induction false} HonestExactlyBelow16Bits(item: Item)
    ensures (forall now :: TooLate(item, now) <==> Late(item, now)) <==> item.deadlineMs < 0x1_0000
  {
    if item.deadlineMs >= 0x1_0000 {
      var now := item.sendTime + item.deadlineMs;
      var narrowed := item.deadlineMs % 0x1_0000;
      if narrowed == 0 {
        assert !TooLate(item, now) && Late(item, now);
      } else {
        assert TooLate(item, item.sendTime + narrowed) && !Late(item, item.sendTime + narrowed);
      }
    }
  }

  // ---------------------------------------------------------------- correlation

  // The latest claim of priority p in a run, -1 when there is none.
  function LastClaim(events: seq<Event>, p: Priority): (i: int)
    ensures -1 <= i < |events|
    ensures i >= 0 ==> events[i].Claim? && events[i].call.priority == p
  {
    if |events| == 0 then -1
    else
      var n := |events| - 1;
      if events[n].Claim? && events[n].call.priority == p then n else LastClaim(events[..n], p)
  }

  // Event j delivered a response for priority p with sequence number s.
  predicate Matching(e: Event, p: Priority, s: Uint32) {
    e.Deliver? && Normalise(e.rsp.priority) == p && ToUint32(e.rsp.number) == s
  }

  // The slot's content is that of the latest matching response since the claim.
  ghost predicate HoldsLatest(events: seq<Event>, p: Priority, c: Client, j: int) {
    && 0 <= j < |events| && LastClaim(events, p) < j
    && Matching(events[j], p, c.pendingSeq)
    && (forall k :: j < k < |events| ==> !Matching(events[k], p, c.pendingSeq))
    && c.pending == Reply(events[j].rsp.status, Text(events[j].rsp.payload, PAYLOAD_LEN), p)
  }

  ghost predicate Busy(c: Client) {
    !c.phase.Idle?
  }

  // The slot belongs to the current send, and a count in the semaphore or a completed
  // take means a response to that very send is in it.
  ghost predicate ClientOk(cfg: NodeConfig, events: seq<Event>, p: Priority) {
    var c, i := Run(cfg, events).lanes.Get(p).client, LastClaim(events, p);
    && c.sem <= 1
    && (Busy(c) ==>
         && i >= 0
         && c.phase.number == c.pendingSeq == Run(cfg, events[..i]).nextSeq
         && c.phase.call == events[i].call)
    && (Busy(c) && (c.sem > 0 || c.phase.Taken?) ==> exists j :: HoldsLatest(events, p, c, j))
  }

  lemma {:induction false} LastClaimBounds(events: seq<Event>, p: Priority)
    ensures forall k :: LastClaim(events, p) < k < |events| ==> !(events[k].Claim? && events[k].call.priority == p)
  {
    if |events| > 0 {
      LastClaimBounds(events[..|events| - 1], p);
    }
  }

  lemma {:induction false} RunClientOk(cfg: NodeConfig, events: seq<Event>, p: Priority)
    requires Legal(cfg, events)
    ensures ClientOk(cfg, events, p)
  {
    hide Apply, Enabled;
    if |events| > 0 {
      var n := |events| - 1;
      RunClientOk(cfg, events[..n], p);
      assert events[..n] + [events[n]] == events;
      if PriorityOf(events[n]) == p {
        OwnStepClientOk(cfg, events[..n], events[n]);
      } else {
        OtherStepClientOk(cfg, events[..n], events[n], p);
      }
    }
  }

  // The slot's latest response stays the latest when nothing matching is delivered.
  lemma {:induction false} StillLatest(front: seq<Event>, e: Event, p: Priority, c: Client, j: int)
    requires HoldsLatest(front, p, c, j)
    requires !(e.Claim? && e.call.priority == p) && !Matching(e, p, c.pendingSeq)
    ensures HoldsLatest(front + [e], p, c, j)
  {
    assert (front + [e])[..|front|] == front;
  }

  lemma {:induction false} OtherStepClientOk(cfg: NodeConfig, front: seq<Event>, e: Event, p: Priority)
    requires ClientOk(cfg, front, p) && PriorityOf(e) != p
    ensures ClientOk(cfg, front + [e], p)
  {
    var events := front + [e];
    assert events[..|front|] == front;
    LastClaimBounds(front, p);
    var c, i := Run(cfg, front).lanes.Get(p).client, LastClaim(front, p);
    assert Run(cfg, events).lanes.Get(p).client == c;
    assert i >= 0 ==> events[..i] == front[..i];
    if Busy(c) && (c.sem > 0 || c.phase.Taken?) {
      var j :| HoldsLatest(front, p, c, j);
      StillLatest(front, e, p, c, j);
    }
  }

  lemma {:induction false} OwnStepClientOk(cfg: NodeConfig, front: seq<Event>, e: Event)
    requires ClientOk(cfg, front, PriorityOf(e)) && Enabled(cfg, Run(cfg, front).lanes.Get(PriorityOf(e)), e)
    ensures ClientOk(cfg, front + [e], PriorityOf(e))
  {
    var events, p := front + [e], PriorityOf(e);
    assert events[..|front|] == front;
    LastClaimBounds(front, p);
    var c, i := Run(cfg, front).lanes.Get(p).client, LastClaim(front, p);
    var c' := Run(cfg, events).lanes.Get(p).client;
    assert c' == ApplyClient(c, Run(cfg, front).nextSeq, e);
    if e.Claim? {
      assert LastClaim(events, p) == |front|;
    } else {
      assert LastClaim(events, p) == i;
      assert i >= 0 ==> events[..i] == front[..i];
      if e.Deliver? && Matching(e, p, c.pendingSeq) {
        assert Busy(c) ==> HoldsLatest(events, p, c', |front|);
      } else if Busy(c') && (c'.sem > 0 || c'.phase.Taken?) {
        var j :| HoldsLatest(front, p, c, j);
        StillLatest(front, e, p, c, j);
        assert HoldsLatest(events, p, c', j);
      }
    }
  }

  // In every interleaving, and whatever the network delivers: a send that succeeds hands
  // back the status and payload of a response that carried the number drawn by that very
  // send, was delivered after the send claimed its slot, and is the latest such response.
  lemma {:induction false} SuccessIsOwnReply(cfg: NodeConfig, events: seq<Event>, p: Priority) returns (i: int, j: int)
    requires Legal(cfg, events + [CopyOut(p)])
    ensures var outcomes := Run(cfg, events + [CopyOut(p)]).lanes.Get(p).client.outcomes;
      && |outcomes| > 0
      && var o := outcomes[|outcomes| - 1];
      && 0 <= i < j < |events|
      && events[i].Claim? && o.call == events[i].call && o.call.priority == p
      && o.number == Run(cfg, events[..i]).nextSeq
      && (forall k :: i < k < |events| ==> !(events[k].Claim? && events[k].call.priority == p))
      && Matching(events[j], p, o.number)
      && (forall k :: j < k < |events| ==> !Matching(events[k], p, o.number))
      && o.reply == Some(Reply(events[j].rsp.status, Text(events[j].rsp.payload, PAYLOAD_LEN), p))
  {
    assert (events + [CopyOut(p)])[..|events|] == events;
    RunClientOk(cfg, events, p);
    LastClaimBounds(events, p);
    i := LastClaim(events, p);
    j :| HoldsLatest(events, p, Run(cfg, events).lanes.Get(p).client, j);
  }

  lemma {:induction false} CallsGrow(cfg: NodeConfig, events: seq<Event>, i: nat, j: nat)
    requires i < j <= |events|
    ensures |Run(cfg, events[..i]).calls| + (if events[i].Claim? then 1 else 0) <= |Run(cfg, events[..j]).calls|
  {
    hide ApplyLane;
    assert events[..j][..j - 1] == events[..j - 1];
    if i < j - 1 {
      CallsGrow(cfg, events, i, j - 1);
    }
  }

  // The numbers of two sends of a run with at most 2^32 of them are different.
  lemma {:induction false} OtherNumber(cfg: NodeConfig, events: seq<Event>, i: nat, k: nat)
    requires i < k < |events| && events[i].Claim? && events[k].Claim?
    requires |Run(cfg, events).calls| <= TWO_TO_THE_32
    ensures Run(cfg, events[..i]).nextSeq != Run(cfg, events[..k]).nextSeq
  {
    hide Run;
    assert events[..|events|] == events;
    SeqCounts(cfg, events[..i]);
    SeqCounts(cfg, events[..k]);
    CallsGrow(cfg, events, i, k);
    CallsGrow(cfg, events, k, |events|);
  }

  // With at most 2^32 sends, the response a successful send hands back carried the number
  // of no other send of the run, timed out or not, at this priority or another; and below
  // 2^32 sends it did not carry 0.
  lemma {:induction false} StaleRepliesIgnored(cfg: NodeConfig, events: seq<Event>, p: Priority)
    returns (i: int, j: int)
    requires Legal(cfg, events + [CopyOut(p)]) && |Run(cfg, events).calls| <= TWO_TO_THE_32
    ensures var outcomes := Run(cfg, events + [CopyOut(p)]).lanes.Get(p).client.outcomes;
      && 0 <= i < j < |events| && events[i].Claim? && events[j].Deliver?
      && |outcomes| > 0 && outcomes[|outcomes| - 1].reply
           == Some(Reply(events[j].rsp.status, Text(events[j].rsp.payload, PAYLOAD_LEN), p))
    ensures forall k :: 0 <= k < |events| && events[k].Claim? ==>
      (ToUint32(events[j].rsp.number) == Run(cfg, events[..k]).nextSeq <==> k == i)
    ensures |Run(cfg, events).calls| < TWO_TO_THE_32 ==> ToUint32(events[j].rsp.number) != 0
  {
    hide Run;
    i, j := SuccessIsOwnReply(cfg, events, p);
    forall k | 0 <= k < |events| && events[k].Claim? && k != i
      ensures Run(cfg, events[..k]).nextSeq != Run(cfg, events[..i]).nextSeq
    {
      OtherNumber(cfg, events, if k < i then k else i, if k < i then i else k);
    }
    assert events[..|events|] == events;
    SeqCounts(cfg, events[..i]);
    CallsGrow(cfg, events, i, |events|);
  }

  // ---------------------------------------------------------------- conservation and order

  function Items(answers: seq<Answer>): (r: seq<Item>)
    ensures |r| == |answers|
    ensures forall k :: 0 <= k < |r| ==> r[k] == answers[k].item
  {
    seq(|answers|, k requires 0 <= k < |answers| => answers[k].item)
  }

  function InHandling(s: Server): seq<Item> {
    if s.handling.Some? then [s.handling.value] else []
  }

  // The requests received at priority p, in arrival order.
  function Received(events: seq<Event>, p: Priority): seq<Item> {
    if |events| == 0 then []
    else
      var n := |events| - 1;
      Received(events[..n], p) +
        (if events[n].Arrive? && Normalise(events[n].req.priority) == p
         then [ItemOf(events[n].req, events[n].src)] else [])
  }

  // Accepted requests are, in arrival order, the answered ones, then the one being
  // handled, then the queued ones; the queue is within its depth.
  ghost predicate ServerOk(depth: nat, s: Server) {
    && s.accepted == Items(s.answered) + InHandling(s) + s.queue
    && |s.queue| <= depth
  }

  lemma {:induction false} ApplyServerOk(depth: nat, s: Server, e: Event)
    requires ServerOk(depth, s)
    ensures ServerOk(depth, ApplyServer(depth, s, e))
  {
    var s' := ApplyServer(depth, s, e);
    if e.Dequeue? && s.handling.None? && |s.queue| > 0 {
      assert s.queue == [s.queue[0]] + s.queue[1..];
    } else if e.Respond? && s.handling.Some? {
      assert Items(s'.answered) == Items(s.answered) + [s.handling.value];
    }
  }

  // For each request received at priority p, whether its queue had room.
  function Admissions(cfg: NodeConfig, events: seq<Event>, p: Priority): seq<bool> {
    if |events| == 0 then []
    else
      var n := |events| - 1;
      Admissions(cfg, events[..n], p) +
        (if events[n].Arrive? && Normalise(events[n].req.priority) == p
         then [|Run(cfg, events[..n]).lanes.Get(p).server.queue| < cfg.depth] else [])
  }

  // The items with this mark, in order.
  function Picked(items: seq<Item>, marks: seq<bool>, mark: bool): seq<Item>
    requires |items| == |marks|
  {
    if |items| == 0 then []
    else
      var n := |items| - 1;
      Picked(items[..n], marks[..n], mark) + (if marks[n] == mark then [items[n]] else [])
  }

  // Of the requests received, those that found room were accepted and the others turned
  // away, both in the order they came.
  ghost predicate Accounted(depth: nat, received: seq<Item>, marks: seq<bool>, s: Server) {
    && ServerOk(depth, s)
    && |marks| == |received|
    && s.accepted == Picked(received, marks, true)
    && Items(s.rejected) == Picked(received, marks, false)
  }

  lemma {:induction false} StepAccounted(depth: nat, received: seq<Item>, marks: seq<bool>, s: Server, e: Event)
    requires Accounted(depth, received, marks, s)
    ensures Accounted(depth, received + (if e.Arrive? then [ItemOf(e.req, e.src)] else []),
                      marks + (if e.Arrive? then [|s.queue| < depth] else []), ApplyServer(depth, s, e))
  {
    hide ServerOk;
    ApplyServerOk(depth, s, e);
    if e.Arrive? {
      var item, room := ItemOf(e.req, e.src), |s.queue| < depth;
      assert (received + [item])[..|received|] == received && (marks + [room])[..|marks|] == marks;
      assert Items(s.rejected + [QueueFull(item)]) == Items(s.rejected) + [item];
    } else {
      assert received + [] == received && marks + [] == marks;
    }
  }

  // A step works on the lane of its priority and leaves the other lanes alone.
  lemma LaneStep(cfg: NodeConfig, events: seq<Event>, p: Priority)
    requires |events| > 0
    ensures var n := |events| - 1; var before := Run(cfg, events[..n]);
      Run(cfg, events).lanes.Get(p) ==
        if PriorityOf(events[n]) == p then ApplyLane(cfg, before.lanes.Get(p), before.nextSeq, events[n])
        else before.lanes.Get(p)
  {
    hide ApplyLane;
  }

  // Every request received is accepted or turned away at once, for want of room and for
  // no other reason; the accepted ones are, in the order of their arrival, those answered,
  // the one in handling and those queued.
  lemma {:induction false} RequestsConserved(cfg: NodeConfig, events: seq<Event>, p: Priority)
    ensures Accounted(cfg.depth, Received(events, p), Admissions(cfg, events, p),
                      Run(cfg, events).lanes.Get(p).server)
  {
    hide Apply, ApplyServer, ApplyClient, Accounted;
    if |events| == 0 {
      NothingAccounted(cfg.depth);
    } else {
      var n := |events| - 1;
      RequestsConserved(cfg, events[..n], p);
      LaneStep(cfg, events, p);
      var received, marks := Received(events[..n], p), Admissions(cfg, events[..n], p);
      if PriorityOf(events[n]) == p {
        StepAccounted(cfg.depth, received, marks, Run(cfg, events[..n]).lanes.Get(p).server, events[n]);
      } else {
        assert received + [] == received && marks + [] == marks;
      }
    }
  }

  lemma NothingAccounted(depth: nat)
    ensures Accounted(depth, [], [], EmptyServer)
  {
  }

  // So at each priority received = answered + turned away + in handling + queued, always.
  lemma {:induction false} CountsConserved(cfg: NodeConfig, events: seq<Event>, p: Priority)
    ensures var s := Run(cfg, events).lanes.Get(p).server;
      |Received(events, p)| == |s.answered| + |s.rejected| + |InHandling(s)| + |s.queue|
  {
    hide Run, Received, Admissions, Picked;
    RequestsConserved(cfg, events, p);
    PickedLength(Received(events, p), Admissions(cfg, events, p));
  }

  lemma {:induction false} PickedLength(items: seq<Item>, marks: seq<bool>)
    requires |items| == |marks|
    ensures |Picked(items, marks, true)| + |Picked(items, marks, false)| == |items|
  {
    if |items| > 0 {
      PickedLength(items[..|items| - 1], marks[..|items| - 1]);
    }
  }

  // The responses sent for requests of priority p, with their destinations, in order.
  function ResponsesSent(cfg: NodeConfig, events: seq<Event>, p: Priority): seq<(int, Response)> {
    if |events| == 0 then []
    else
      var n := |events| - 1;
      var out := Output(cfg, Run(cfg, events[..n]), events[n]);
      ResponsesSent(cfg, events[..n], p) +
        (if PriorityOf(events[n]) == p && out.Some? && out.value.1.Rsp? then [(out.value.0, out.value.1.rsp)] else [])
  }

  // To the address the request came from, with its number, from this node.
  function ResponseTo(cfg: NodeConfig, p: Priority, a: Answer): (int, Response) {
    (a.item.src, Response(a.item.number, cfg.id, a.status, Some(a.payload), p))
  }

  function Responses(cfg: NodeConfig, p: Priority, answers: seq<Answer>): (r: seq<(int, Response)>)
    ensures |r| == |answers|
  {
    seq(|answers|, k requires 0 <= k < |answers| => ResponseTo(cfg, p, answers[k]))
  }

  // One response leaves the node for every answered or rejected request, and no other:
  // each goes back to the address its request came from and echoes its number.
  lemma {:induction false} AnsweredExactlyOnce(cfg: NodeConfig, events: seq<Event>, p: Priority)
    ensures var s := Run(cfg, events).lanes.Get(p).server;
      multiset(ResponsesSent(cfg, events, p)) ==
        multiset(Responses(cfg, p, s.answered)) + multiset(Responses(cfg, p, s.rejected))
  {
    if |events| > 0 {
      var n := |events| - 1;
      AnsweredExactlyOnce(cfg, events[..n], p);
      if PriorityOf(events[n]) == p {
        ResponseRecorded(cfg, Run(cfg, events[..n]), events[n]);
      }
    }
  }

  lemma ResponseRecorded(cfg: NodeConfig, n: NodeState, e: Event)
    ensures var p := PriorityOf(e);
      var s, s', out := n.lanes.Get(p).server, Apply(cfg, n, e).lanes.Get(p).server, Output(cfg, n, e);
      multiset(Responses(cfg, p, s'.answered)) + multiset(Responses(cfg, p, s'.rejected)) ==
        multiset(Responses(cfg, p, s.answered)) + multiset(Responses(cfg, p, s.rejected)) +
        (if out.Some? && out.value.1.Rsp? then multiset{(out.value.0, out.value.1.rsp)} else multiset{})
  {
    var p := PriorityOf(e);
    var s, s' := n.lanes.Get(p).server, Apply(cfg, n, e).lanes.Get(p).server;
    if |s'.answered| > |s.answered| {
      var a := s'.answered[|s.answered|];
      assert Responses(cfg, p, s'.answered) == Responses(cfg, p, s.answered) + [ResponseTo(cfg, p, a)];
    } else if |s'.rejected| > |s.rejected| {
      var a := s'.rejected[|s.rejected|];
      assert Responses(cfg, p, s'.rejected) == Responses(cfg, p, s.rejected) + [ResponseTo(cfg, p, a)];
    }
  }

  // ---------------------------------------------------------------- isolation of priorities

  function Only(events: seq<Event>, p: Priority): seq<Event> {
    if |events| == 0 then []
    else
      var n := |events| - 1;
      Only(events[..n], p) + (if PriorityOf(events[n]) == p then [events[n]] else [])
  }

  function ServeAll(depth: nat, events: seq<Event>): Server {
    if |events| == 0 then EmptyServer
    else ApplyServer(depth, ServeAll(depth, events[..|events| - 1]), events[|events| - 1])
  }

  // A priority's queue, handler, answers and rejections are determined by the events of
  // that priority alone: no load at another priority fills its queue or delays its order.
  lemma {:induction false} PrioritiesIsolated(cfg: NodeConfig, events: seq<Event>, p: Priority)
    ensures Run(cfg, events).lanes.Get(p).server == ServeAll(cfg.depth, Only(events, p))
  {
    if |events| > 0 {
      var n := |events| - 1;
      PrioritiesIsolated(cfg, events[..n], p);
      if PriorityOf(events[n]) == p {
        assert Only(events, p)[..|Only(events, p)| - 1] == Only(events[..n], p);
      } else {
        assert Only(events, p) == Only(events[..n], p);
      }
    }
  }
}
