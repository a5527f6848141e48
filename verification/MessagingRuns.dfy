// Several honest nodes over a datagram network that loses, duplicates and reorders:
// what a successful send tells about the peer that was asked.
module MessagingRuns {
  import opened Common
  import opened Messaging

  datatype Datagram = Datagram(src: int, dst: int, body: Body)

  // A datagram once sent may be received any number of times, in any order, or never.
  datatype System = System(nodes: seq<NodeState>, net: set<Datagram>)

  // A node's own step, or the reception of a datagram by its addressee. Addresses are
  // positions in the list of nodes.
  datatype Step = Local(a: nat, e: Event) | Receive(d: Datagram)

  predicate IsReception(e: Event) {
    e.Deliver? || e.Arrive?
  }

  function ReceptionOf(d: Datagram): Option<Event> {
    match d.body
    case Req(req) => Some(Arrive(req, d.src))
    case Rsp(rsp) => Some(Deliver(rsp))
    case Garbage => None
  }

  ghost predicate StepEnabled(cfgs: seq<NodeConfig>, sys: System, step: Step) {
    match step
    case Local(a, e) =>
      a < |cfgs| && a < |sys.nodes| && !IsReception(e) && Enabled(cfgs[a], sys.nodes[a].lanes.Get(PriorityOf(e)), e)
    case Receive(d) => d in sys.net && 0 <= d.dst < |cfgs| && d.dst < |sys.nodes|
  }

  function NodeStep(cfgs: seq<NodeConfig>, sys: System, a: nat, e: Event): System
    requires a < |cfgs| && a < |sys.nodes|
  {
    var out := Output(cfgs[a], sys.nodes[a], e);
    System(sys.nodes[a := Apply(cfgs[a], sys.nodes[a], e)],
           if out.Some? then sys.net + {Datagram(a, out.value.0, out.value.1)} else sys.net)
  }

  // A step that is not enabled does not happen.
  ghost function SystemStep(cfgs: seq<NodeConfig>, sys: System, step: Step): System {
    if !StepEnabled(cfgs, sys, step) then sys
    else
      match step
      case Local(a, e) => NodeStep(cfgs, sys, a, e)
      case Receive(d) =>
        var e := ReceptionOf(d);
        if e.Some? then NodeStep(cfgs, sys, d.dst, e.value) else sys
  }

  function InitialSystem(cfgs: seq<NodeConfig>): System {
    System(seq(|cfgs|, _ => InitialNode), {})
  }

  // The state after a run.
  ghost function After(cfgs: seq<NodeConfig>, steps: seq<Step>): System {
    if |steps| == 0 then InitialSystem(cfgs)
    else SystemStep(cfgs, After(cfgs, steps[..|steps| - 1]), steps[|steps| - 1])
  }

  // ---------------------------------------------------------------- where things come from

  // The send that drew this number at node a.
  ghost predicate DrawnBy(sys: System, a: nat, number: Uint32, call: Call, k: nat) {
    a < |sys.nodes| && k < |sys.nodes[a].calls| && sys.nodes[a].calls[k] == call && number == SeqOf(k)
  }

  ghost predicate Drawn(sys: System, a: nat, number: Uint32, call: Call) {
    exists k :: DrawnBy(sys, a, number, call, k)
  }

  // The reply is the content of a response datagram sent to node a with this number.
  ghost predicate Carries(d: Datagram, a: nat, p: Priority, number: Uint32, reply: Reply) {
    && d.dst == a && d.body.Rsp?
    && ToUint32(d.body.rsp.number) == number && Normalise(d.body.rsp.priority) == p
    && reply == Reply(d.body.rsp.status, Text(d.body.rsp.payload, PAYLOAD_LEN), p)
  }

  ghost predicate Brought(sys: System, a: nat, p: Priority, number: Uint32, reply: Reply) {
    exists d :: d in sys.net && Carries(d, a, p, number, reply)
  }

  // The request datagram is the one a send of its source put on the network.
  ghost predicate IssuedBy(cfgs: seq<NodeConfig>, sys: System, q: Request, src: int, dst: int, k: nat) {
    && 0 <= src < |cfgs| && src < |sys.nodes| && k < |sys.nodes[src].calls|
    && q == RequestOf(cfgs[src], SeqOf(k), sys.nodes[src].calls[k])
    && dst == sys.nodes[src].calls[k].dst
  }

  ghost predicate Issued(cfgs: seq<NodeConfig>, sys: System, q: Request, src: int, dst: int) {
    exists k :: IssuedBy(cfgs, sys, q, src, dst, k)
  }

  // The item was built from such a request, at its addressee and in its priority's queue.
  ghost predicate ItemIssued(cfgs: seq<NodeConfig>, sys: System, b: nat, p: Priority, item: Item) {
    exists q :: Issued(cfgs, sys, q, item.src, b) && item == ItemOf(q, item.src) && Normalise(q.priority) == p
  }

  // Node b answered or turned away this item at priority p.
  ghost predicate AnsweredAt(sys: System, b: nat, p: Priority, ans: Answer) {
    b < |sys.nodes| &&
    (ans in sys.nodes[b].lanes.Get(p).server.answered || ans in sys.nodes[b].lanes.Get(p).server.rejected)
  }

  ghost predicate ResponseFrom(
      cfgs: seq<NodeConfig>, sys: System, r: Response, src: int, dst: int, p: Priority, ans: Answer)
  {
    && 0 <= src < |cfgs| && AnsweredAt(sys, src, p, ans) && ans.item.src == dst
    && r == ResponseOf(cfgs[src], p, ans)
  }

  // ---------------------------------------------------------------- invariant

  ghost predicate DatagramOk(cfgs: seq<NodeConfig>, sys: System, d: Datagram) {
    match d.body
    case Req(q) => Issued(cfgs, sys, q, d.src, d.dst)
    case Rsp(r) => exists p, ans :: ResponseFrom(cfgs, sys, r, d.src, d.dst, p, ans)
    case Garbage => true
  }

  ghost predicate OutcomeOk(sys: System, a: nat, p: Priority, o: Outcome) {
    && Drawn(sys, a, o.number, o.call) && o.call.priority == p
    && (o.reply.Some? ==> Brought(sys, a, p, o.number, o.reply.value))
  }

  ghost predicate ClientLinked(sys: System, a: nat, p: Priority, c: Client) {
    && (Busy(c) ==>
          c.phase.number == c.pendingSeq && Drawn(sys, a, c.phase.number, c.phase.call) && c.phase.call.priority == p)
    && (Busy(c) && (c.sem > 0 || c.phase.Taken?) ==> Brought(sys, a, p, c.pendingSeq, c.pending))
    && (forall o :: o in c.outcomes ==> OutcomeOk(sys, a, p, o))
  }

  ghost predicate ServerLinked(cfgs: seq<NodeConfig>, sys: System, b: nat, p: Priority, s: Server) {
    && (forall item :: item in s.queue ==> ItemIssued(cfgs, sys, b, p, item))
    && (s.handling.Some? ==> ItemIssued(cfgs, sys, b, p, s.handling.value))
    && (forall ans :: ans in s.answered ==> ItemIssued(cfgs, sys, b, p, ans.item))
    && (forall ans :: ans in s.rejected ==> ItemIssued(cfgs, sys, b, p, ans.item))
  }

  ghost predicate LaneLinked(cfgs: seq<NodeConfig>, sys: System, a: nat, p: Priority) {
    a < |sys.nodes| ==>
      ClientLinked(sys, a, p, sys.nodes[a].lanes.Get(p).client) &&
      ServerLinked(cfgs, sys, a, p, sys.nodes[a].lanes.Get(p).server)
  }

  ghost predicate SystemOk(cfgs: seq<NodeConfig>, sys: System) {
    && |sys.nodes| == |cfgs|
    && (forall a :: 0 <= a < |sys.nodes| ==> sys.nodes[a].nextSeq == SeqOf(|sys.nodes[a].calls|))
    && (forall d :: d in sys.net ==> DatagramOk(cfgs, sys, d))
    && (forall a: nat, p: Priority :: LaneLinked(cfgs, sys, a, p))
  }

  // ---------------------------------------------------------------- history only grows

  ghost predicate Extends(sys: System, sys': System) {
    && |sys'.nodes| == |sys.nodes|
    && sys.net <= sys'.net
    && (forall a :: 0 <= a < |sys.nodes| ==> sys.nodes[a].calls <= sys'.nodes[a].calls)
    && (forall b: nat, p: Priority, ans: Answer :: AnsweredAt(sys, b, p, ans) ==> AnsweredAt(sys', b, p, ans))
  }

  lemma IssuedStays(cfgs: seq<NodeConfig>, sys: System, sys': System, q: Request, src: int, dst: int)
    requires Extends(sys, sys') && Issued(cfgs, sys, q, src, dst)
    ensures Issued(cfgs, sys', q, src, dst)
  {
    var k :| IssuedBy(cfgs, sys, q, src, dst, k);
    assert IssuedBy(cfgs, sys', q, src, dst, k);
  }

  lemma ItemIssuedStays(cfgs: seq<NodeConfig>, sys: System, sys': System, b: nat, p: Priority, item: Item)
    requires Extends(sys, sys') && ItemIssued(cfgs, sys, b, p, item)
    ensures ItemIssued(cfgs, sys', b, p, item)
  {
    var q :| Issued(cfgs, sys, q, item.src, b) && item == ItemOf(q, item.src) && Normalise(q.priority) == p;
    IssuedStays(cfgs, sys, sys', q, item.src, b);
  }

  lemma DatagramOkStays(cfgs: seq<NodeConfig>, sys: System, sys': System, d: Datagram)
    requires Extends(sys, sys') && DatagramOk(cfgs, sys, d)
    ensures DatagramOk(cfgs, sys', d)
  {
    match d.body
    case Req(q) => IssuedStays(cfgs, sys, sys', q, d.src, d.dst);
    case Rsp(r) =>
      var p, ans :| ResponseFrom(cfgs, sys, r, d.src, d.dst, p, ans);
      assert ResponseFrom(cfgs, sys', r, d.src, d.dst, p, ans);
    case Garbage =>
  }

  lemma DrawnStays(sys: System, sys': System, a: nat, number: Uint32, call: Call)
    requires Extends(sys, sys') && Drawn(sys, a, number, call)
    ensures Drawn(sys', a, number, call)
  {
    var k :| DrawnBy(sys, a, number, call, k);
    assert DrawnBy(sys', a, number, call, k);
  }

  lemma BroughtStays(sys: System, sys': System, a: nat, p: Priority, number: Uint32, reply: Reply)
    requires Extends(sys, sys') && Brought(sys, a, p, number, reply)
    ensures Brought(sys', a, p, number, reply)
  {
    var d :| d in sys.net && Carries(d, a, p, number, reply);
    assert d in sys'.net;
  }

  lemma ClientLinkedStays(sys: System, sys': System, a: nat, p: Priority, c: Client)
    requires Extends(sys, sys') && ClientLinked(sys, a, p, c)
    ensures ClientLinked(sys', a, p, c)
  {
    if Busy(c) {
      DrawnStays(sys, sys', a, c.phase.number, c.phase.call);
      if c.sem > 0 || c.phase.Taken? {
        BroughtStays(sys, sys', a, p, c.pendingSeq, c.pending);
      }
    }
    forall o | o in c.outcomes
      ensures OutcomeOk(sys', a, p, o)
    {
      DrawnStays(sys, sys', a, o.number, o.call);
      if o.reply.Some? {
        BroughtStays(sys, sys', a, p, o.number, o.reply.value);
      }
    }
  }

  lemma ServerLinkedStays(cfgs: seq<NodeConfig>, sys: System, sys': System, b: nat, p: Priority, s: Server)
    requires Extends(sys, sys') && ServerLinked(cfgs, sys, b, p, s)
    ensures ServerLinked(cfgs, sys', b, p, s)
  {
    forall item | ItemIssued(cfgs, sys, b, p, item)
      ensures ItemIssued(cfgs, sys', b, p, item)
    {
      ItemIssuedStays(cfgs, sys, sys', b, p, item);
    }
  }

  // ---------------------------------------------------------------- one step

  // What a step may bring in: a reception is that of a datagram on the network.
  ghost predicate FromNetwork(sys: System, a: nat, e: Event) {
    match e
    case Deliver(rsp) => exists d :: d in sys.net && d.dst == a && d.body == Rsp(rsp)
    case Arrive(req, src) => Datagram(src, a, Req(req)) in sys.net
    case _ => true
  }

  lemma NodeStepExtends(cfgs: seq<NodeConfig>, sys: System, a: nat, e: Event)
    requires a < |cfgs| && a < |sys.nodes|
    ensures Extends(sys, NodeStep(cfgs, sys, a, e))
  {
    var sys' := NodeStep(cfgs, sys, a, e);
    forall b: nat, p: Priority, ans: Answer | AnsweredAt(sys, b, p, ans)
      ensures AnsweredAt(sys', b, p, ans)
    {
      if b == a && p == PriorityOf(e) {
        assert sys'.nodes[b].lanes.Get(p).server == ApplyServer(cfgs[a].depth, sys.nodes[b].lanes.Get(p).server, e);
      }
    }
  }

  // The stepping lane's client, judged in the new system.
  lemma ClientStepLinked(sys: System, sys': System, a: nat, p: Priority, c: Client, nextSeq: Uint32, e: Event)
    requires Extends(sys, sys') && ClientLinked(sys, a, p, c) && PriorityOf(e) == p
    requires FromNetwork(sys, a, e)
    requires e.Claim? ==> c.phase.Idle? && Drawn(sys', a, nextSeq, e.call)
    requires e.CopyOut? ==> c.phase.Taken?
    ensures ClientLinked(sys', a, p, ApplyClient(c, nextSeq, e))
  {
    ClientLinkedStays(sys, sys', a, p, c);
    if e.Deliver? {
      var d :| d in sys.net && d.dst == a && d.body == Rsp(e.rsp);
      if ToUint32(e.rsp.number) == c.pendingSeq {
        assert d in sys'.net && Carries(d, a, p, c.pendingSeq, ApplyClient(c, nextSeq, e).pending);
      }
    }
    if e.CopyOut? {
      BroughtHasPriority(sys', a, p, c.pendingSeq, c.pending);
    }
  }

  lemma BroughtHasPriority(sys: System, a: nat, p: Priority, number: Uint32, reply: Reply)
    requires Brought(sys, a, p, number, reply)
    ensures reply.(priority := p) == reply
  {
  }

  // The stepping lane's server, judged in the new system.
  lemma ServerStepLinked(
      cfgs: seq<NodeConfig>, sys: System, sys': System, b: nat, p: Priority, depth: nat, s: Server, e: Event)
    requires Extends(sys, sys') && ServerLinked(cfgs, sys, b, p, s) && PriorityOf(e) == p
    requires e.Arrive? ==> Issued(cfgs, sys, e.req, e.src, b)
    ensures ServerLinked(cfgs, sys', b, p, ApplyServer(depth, s, e))
  {
    ServerLinkedStays(cfgs, sys, sys', b, p, s);
    if e.Arrive? {
      IssuedStays(cfgs, sys, sys', e.req, e.src, b);
      assert ItemIssued(cfgs, sys', b, p, ItemOf(e.req, e.src));
    }
  }

  // The datagram a step puts on the network has a proper origin.
  lemma OutputOk(cfgs: seq<NodeConfig>, sys: System, a: nat, e: Event)
    requires a < |cfgs| == |sys.nodes| && LaneLinked(cfgs, sys, a, PriorityOf(e))
    requires Output(cfgs[a], sys.nodes[a], e).Some?
    ensures var out := Output(cfgs[a], sys.nodes[a], e).value;
      DatagramOk(cfgs, NodeStep(cfgs, sys, a, e), Datagram(a, out.0, out.1))
  {
    var p, sys' := PriorityOf(e), NodeStep(cfgs, sys, a, e);
    var out := Output(cfgs[a], sys.nodes[a], e).value;
    var lane := sys.nodes[a].lanes.Get(p);
    assert sys'.nodes[a].lanes.Get(p) == ApplyLane(cfgs[a], lane, sys.nodes[a].nextSeq, e);
    match e
    case Transmit(_) =>
      var k :| DrawnBy(sys, a, lane.client.phase.number, lane.client.phase.call, k);
      assert IssuedBy(cfgs, sys', out.1.req, a, out.0, k);
    case Arrive(req, src) =>
      assert ResponseFrom(cfgs, sys', out.1.rsp, a, out.0, p, QueueFull(ItemOf(req, src)));
    case Respond(_, now, handled) =>
      assert ResponseFrom(cfgs, sys', out.1.rsp, a, out.0, p, AnswerTo(lane.server.handling.value, now, handled));
    case _ =>
  }

  lemma NodeStepNet(cfgs: seq<NodeConfig>, sys: System, a: nat, e: Event)
    requires SystemOk(cfgs, sys) && a < |cfgs|
    ensures forall d :: d in NodeStep(cfgs, sys, a, e).net ==> DatagramOk(cfgs, NodeStep(cfgs, sys, a, e), d)
  {
    var sys' := NodeStep(cfgs, sys, a, e);
    NodeStepExtends(cfgs, sys, a, e);
    forall d | d in sys'.net
      ensures DatagramOk(cfgs, sys', d)
    {
      if d in sys.net {
        DatagramOkStays(cfgs, sys, sys', d);
      } else {
        assert LaneLinked(cfgs, sys, a, PriorityOf(e));
        OutputOk(cfgs, sys, a, e);
      }
    }
  }

  lemma NodeStepLane(cfgs: seq<NodeConfig>, sys: System, a: nat, e: Event, b: nat, p: Priority)
    requires SystemOk(cfgs, sys) && a < |cfgs| && b < |cfgs|
    requires Enabled(cfgs[a], sys.nodes[a].lanes.Get(PriorityOf(e)), e) && FromNetwork(sys, a, e)
    ensures LaneLinked(cfgs, NodeStep(cfgs, sys, a, e), b, p)
  {
    var sys' := NodeStep(cfgs, sys, a, e);
    NodeStepExtends(cfgs, sys, a, e);
    assert LaneLinked(cfgs, sys, b, p);
    var lane := sys.nodes[b].lanes.Get(p);
    if b == a && p == PriorityOf(e) {
      assert sys'.nodes[a].lanes.Get(p) == ApplyLane(cfgs[a], lane, sys.nodes[a].nextSeq, e);
      if e.Claim? {
        assert DrawnBy(sys', a, sys.nodes[a].nextSeq, e.call, |sys.nodes[a].calls|);
      }
      if e.Arrive? {
        assert DatagramOk(cfgs, sys, Datagram(e.src, a, Req(e.req)));
      }
      ClientStepLinked(sys, sys', a, p, lane.client, sys.nodes[a].nextSeq, e);
      ServerStepLinked(cfgs, sys, sys', a, p, cfgs[a].depth, lane.server, e);
    } else {
      assert sys'.nodes[b].lanes.Get(p) == lane;
      ClientLinkedStays(sys, sys', b, p, lane.client);
      ServerLinkedStays(cfgs, sys, sys', b, p, lane.server);
    }
  }

  lemma NodeStepOk(cfgs: seq<NodeConfig>, sys: System, a: nat, e: Event)
    requires SystemOk(cfgs, sys) && a < |cfgs|
    requires Enabled(cfgs[a], sys.nodes[a].lanes.Get(PriorityOf(e)), e) && FromNetwork(sys, a, e)
    ensures SystemOk(cfgs, NodeStep(cfgs, sys, a, e))
  {
    hide LaneLinked, DatagramOk, Output;
    var sys' := NodeStep(cfgs, sys, a, e);
    NodeStepNet(cfgs, sys, a, e);
    forall b: nat, p: Priority
      ensures LaneLinked(cfgs, sys', b, p)
    {
      if b < |cfgs| {
        NodeStepLane(cfgs, sys, a, e, b, p);
      } else {
        NobodyThere(cfgs, sys', b, p);
      }
    }
    NextSeqOf(|sys.nodes[a].calls|);
  }

  lemma NobodyThere(cfgs: seq<NodeConfig>, sys: System, b: nat, p: Priority)
    requires b >= |sys.nodes|
    ensures LaneLinked(cfgs, sys, b, p)
  {
  }

  lemma StepOk(cfgs: seq<NodeConfig>, sys: System, step: Step)
    requires SystemOk(cfgs, sys)
    ensures SystemOk(cfgs, SystemStep(cfgs, sys, step))
  {
    hide SystemOk, NodeStep;
    if StepEnabled(cfgs, sys, step) {
      match step
      case Local(a, e) => NodeStepOk(cfgs, sys, a, e);
      case Receive(d) =>
        var e := ReceptionOf(d);
        if e.Some? {
          assert d.body.Req? ==> d == Datagram(d.src, d.dst, Req(d.body.req));
          NodeStepOk(cfgs, sys, d.dst, e.value);
        }
    }
  }

  // In every reachable state, every datagram, queued item, answer and outcome has its
  // proper origin.
  lemma {:induction false} RunStaysOk(cfgs: seq<NodeConfig>, steps: seq<Step>)
    ensures SystemOk(cfgs, After(cfgs, steps))
  {
    hide SystemOk, SystemStep;
    if |steps| == 0 {
      InitialOk(cfgs);
    } else {
      RunStaysOk(cfgs, steps[..|steps| - 1]);
      StepOk(cfgs, After(cfgs, steps[..|steps| - 1]), steps[|steps| - 1]);
    }
  }

  lemma InitialOk(cfgs: seq<NodeConfig>)
    ensures SystemOk(cfgs, InitialSystem(cfgs))
  {
  }

  // ---------------------------------------------------------------- where answers come from

  // The step in which node b gives this answer: its handler thread comes to the item, or
  // the request finds the queue full.
  ghost predicate Answers(cfgs: seq<NodeConfig>, sys: System, step: Step, b: nat, p: Priority, ans: Answer) {
    && b < |cfgs| && b < |sys.nodes| && StepEnabled(cfgs, sys, step)
    && var s := sys.nodes[b].lanes.Get(p).server;
       match step
       case Local(a, e) =>
         && a == b && e.Respond? && e.pri == p
         && s.handling == Some(ans.item) && ans == AnswerTo(ans.item, e.now, e.handled)
       case Receive(d) =>
         && d.dst == b && d.body.Req? && Normalise(d.body.req.priority) == p
         && |s.queue| >= cfgs[b].depth && ans == QueueFull(ItemOf(d.body.req, d.src))
  }

  // Every answer on record was given in a step of the run.
  lemma {:induction false} AnswerWasGiven(cfgs: seq<NodeConfig>, steps: seq<Step>, b: nat, p: Priority, ans: Answer)
    returns (t: nat)
    requires AnsweredAt(After(cfgs, steps), b, p, ans)
    ensures t < |steps| && Answers(cfgs, After(cfgs, steps[..t]), steps[t], b, p, ans)
  {
    hide SystemStep, Answers, AnsweredAt;
    NobodyAnswered(cfgs, b, p, ans);
    t := |steps| - 1;
    if AnsweredAt(After(cfgs, steps[..t]), b, p, ans) {
      var r := AnswerWasGiven(cfgs, steps[..t], b, p, ans);
      assert steps[..t][..r] == steps[..r];
      t := r;
    } else {
      NewAnswer(cfgs, After(cfgs, steps[..t]), steps[t], b, p, ans);
    }
  }

  lemma NobodyAnswered(cfgs: seq<NodeConfig>, b: nat, p: Priority, ans: Answer)
    ensures !AnsweredAt(InitialSystem(cfgs), b, p, ans)
  {
  }

  lemma NewAnswer(cfgs: seq<NodeConfig>, sys: System, step: Step, b: nat, p: Priority, ans: Answer)
    requires !AnsweredAt(sys, b, p, ans) && AnsweredAt(SystemStep(cfgs, sys, step), b, p, ans)
    ensures Answers(cfgs, sys, step, b, p, ans)
  {
    var e := if step.Local? then Some(step.e) else ReceptionOf(step.d);
    if StepEnabled(cfgs, sys, step) && e.Some? {
      var a := if step.Local? then step.a else step.d.dst;
      assert SystemStep(cfgs, sys, step) == NodeStep(cfgs, sys, a, e.value);
      LaneAfter(cfgs, sys, a, e.value, b, p);
    }
  }

  // A node's step works on one lane of that node.
  lemma LaneAfter(cfgs: seq<NodeConfig>, sys: System, a: nat, e: Event, b: nat, p: Priority)
    requires a < |cfgs| && a < |sys.nodes| && b < |sys.nodes|
    ensures NodeStep(cfgs, sys, a, e).nodes[b].lanes.Get(p) ==
      if a == b && p == PriorityOf(e) then ApplyLane(cfgs[a], sys.nodes[a].lanes.Get(p), sys.nodes[a].nextSeq, e)
      else sys.nodes[b].lanes.Get(p)
  {
    hide ApplyLane;
  }

  // ---------------------------------------------------------------- end to end

  // The beginning of a text that a buffer of n characters holds: the text itself if it fits.
  function Head(s: string, n: nat): string {
    if |s| <= n then s else s[..n]
  }

  // What a request deserves of the node that serves it at this time: an error past its
  // deadline (116 is ETIMEDOUT); else what a handler of its service makes of its payload, or
  // an error when there is none (2 is ENOENT). A service name of up to 31 characters and a
  // payload of up to 127 count as the caller gave them.
  ghost predicate Deserved(cfg: NodeConfig, call: Call, now: int, reply: Reply) {
    var name, text := Head(call.service, 31), Head(call.payload, 127);
    if call.deadlineMs > 0 && now >= call.sendTime + call.deadlineMs then
      reply.status == -116 && reply.payload == "deadline expired"
    else
      || (name in cfg.services && cfg.services[name].behaves(text, reply.status, reply.payload))
      || ((name in cfg.services ==> !cfg.services[name].fromStart)
          && reply.status == -2 && reply.payload == "unknown service")
  }

  // The reply is what the node that took this step gave for the call: its queue was full (12
  // is ENOMEM), or its handler thread did what the call deserved at that time.
  ghost predicate Explains(cfgs: seq<NodeConfig>, sys: System, step: Step, call: Call, reply: Reply) {
    && 0 <= call.dst < |cfgs| && call.dst < |sys.nodes|
    && match step
       case Local(b, e) => b == call.dst && e.Respond? && Deserved(cfgs[b], call, e.now, reply)
       case Receive(d) =>
         && d.dst == call.dst && |sys.nodes[d.dst].lanes.Get(call.priority).server.queue| >= cfgs[d.dst].depth
         && reply.status == -12 && reply.payload == "queue full"
  }

  // The addressed node answered exactly the request this send issued, in step t, and this
  // is the reply.
  ghost predicate PeerAnswered(cfgs: seq<NodeConfig>, steps: seq<Step>, a: nat, o: Outcome, ans: Answer, t: nat)
    requires a < |cfgs|
  {
    && 0 <= o.call.dst && AnsweredAt(After(cfgs, steps), o.call.dst, o.call.priority, ans)
    && ans.item == ItemOf(RequestOf(cfgs[a], o.number, o.call), a)
    && o.reply == Some(Reply(ans.status, ans.payload, o.call.priority))
    && t < |steps| && Answers(cfgs, After(cfgs, steps[..t]), steps[t], o.call.dst, o.call.priority, ans)
  }

  // A response on the network leads back to an answer of its source and to the send
  // of its destination that drew its number.
  lemma ResponseTracesBack(cfgs: seq<NodeConfig>, sys: System, d: Datagram)
    returns (p: Priority, ans: Answer, q: Request, j: nat)
    requires SystemOk(cfgs, sys) && d in sys.net && d.body.Rsp?
    ensures ResponseFrom(cfgs, sys, d.body.rsp, d.src, d.dst, p, ans)
    ensures ans.item == ItemOf(q, ans.item.src) && Normalise(q.priority) == p
    ensures IssuedBy(cfgs, sys, q, d.dst, d.src, j)
  {
    assert DatagramOk(cfgs, sys, d);
    p, ans :| ResponseFrom(cfgs, sys, d.body.rsp, d.src, d.dst, p, ans);
    assert LaneLinked(cfgs, sys, d.src, p);
    assert ItemIssued(cfgs, sys, d.src, p, ans.item);
    q :| Issued(cfgs, sys, q, ans.item.src, d.src) && ans.item == ItemOf(q, ans.item.src) && Normalise(q.priority) == p;
    j :| IssuedBy(cfgs, sys, q, d.dst, d.src, j);
  }

  lemma SeqOfInjective(j: nat, k: nat)
    requires j < TWO_TO_THE_32 && k < TWO_TO_THE_32 && SeqOf(j) == SeqOf(k)
    ensures j == k
  {
  }

  // A successful send returns what the node it addressed answered to the very request
  // that send issued: same number, priority, service, payload and deadline, from this
  // sender. In every reachable state of every run, with at most 2^32 sends by the node.
  lemma {:induction false} SuccessEndToEnd(cfgs: seq<NodeConfig>, steps: seq<Step>, a: nat, p: Priority, o: Outcome)
    returns (ans: Answer, t: nat)
    requires a < |cfgs| && a < |After(cfgs, steps).nodes|
    requires o in After(cfgs, steps).nodes[a].lanes.Get(p).client.outcomes && o.reply.Some?
    requires |After(cfgs, steps).nodes[a].calls| <= TWO_TO_THE_32
    ensures o.call.priority == p && PeerAnswered(cfgs, steps, a, o, ans, t)
    ensures Explains(cfgs, After(cfgs, steps[..t]), steps[t], o.call, o.reply.value)
  {
    var sys := After(cfgs, steps);
    RunStaysOk(cfgs, steps);
    assert OutcomeOk(sys, a, p, o) by {
      assert LaneLinked(cfgs, sys, a, p);
    }
    hide SystemOk, After, AnsweredAt, Answers, Explains;
    var d :| d in sys.net && Carries(d, a, p, o.number, o.reply.value);
    var p2, answer, q, j := ResponseTracesBack(cfgs, sys, d);
    var i :| DrawnBy(sys, a, o.number, o.call, i);
    SeqSurvivesTheWire(SeqOf(j));
    SeqOfInjective(i, j);
    ans := answer;
    t := AnswerWasGiven(cfgs, steps, d.src, p2, ans);
    AnswersFit(cfgs, After(cfgs, steps[..t]), steps[t], d.src, p2, ans);
    AnswersExplain(cfgs, After(cfgs, steps[..t]), steps[t], a, o.number, o.call, ans);
  }

  // Every answer fits the response slot, so the sender receives it whole.
  lemma AnswersFit(cfgs: seq<NodeConfig>, sys: System, step: Step, b: nat, p: Priority, ans: Answer)
    requires Answers(cfgs, sys, step, b, p, ans)
    ensures Text(Some(ans.payload), PAYLOAD_LEN) == ans.payload
  {
  }

  lemma AnswersExplain(
      cfgs: seq<NodeConfig>, sys: System, step: Step, a: nat, number: Uint32, call: Call, ans: Answer)
    requires a < |cfgs| && 0 <= call.dst && Answers(cfgs, sys, step, call.dst, call.priority, ans)
    requires ans.item == ItemOf(RequestOf(cfgs[a], number, call), a)
    ensures Explains(cfgs, sys, step, call, Reply(ans.status, ans.payload, call.priority))
  {
    HonestExactlyBelow16Bits(ans.item);
    if step.Local? {
      assert TooLate(ans.item, step.e.now) <==> Late(ans.item, step.e.now);
    }
  }
}
