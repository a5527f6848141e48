// What must come of messaging, beside what may not: a request reaches the handler as it was
// made, a delivered response ends the wait, every send ends once, and every accepted
// request can be answered.
module MessagingProgress {
  import opened Common
  import opened Messaging

  // ---------------------------------------------------------------- what arrives

  // The three priorities stay what they are; anything else is NORMAL.
  lemma PriorityKept(p: int)
    ensures p == 0 || p == 1 || p == 2 ==> Normalise(p) == p
    ensures p < 0 || p > 2 ==> Normalise(p) == 1
  {
  }

  // The item a handler thread gets for a request holds what the caller gave: a service name
  // of up to 31 characters and a payload of up to 127 unchanged, longer ones cut.
  lemma {:induction false} RequestArrives(cfg: NodeConfig, number: Uint32, call: Call, src: int)
    ensures var item := ItemOf(RequestOf(cfg, number, call), src);
      && Holds(call.service, 31, item.toSvc) && Holds(call.payload, 127, item.payload)
      && (|call.service| <= 31 ==> item.toSvc == call.service)
      && (|call.payload| <= 127 ==> item.payload == call.payload)
      && ToUint32(item.number) == number && item.fromId == cfg.id && item.src == src
      && item.priority == call.priority && item.deadlineMs == call.deadlineMs && item.sendTime == call.sendTime
  {
    SeqSurvivesTheWire(number);
  }

  // ---------------------------------------------------------------- responses end waits

  lemma Extended(cfg: NodeConfig, events: seq<Event>, e: Event)
    ensures Run(cfg, events + [e]) == Apply(cfg, Run(cfg, events), e)
    ensures Legal(cfg, events + [e]) <==>
      Legal(cfg, events) && Enabled(cfg, Run(cfg, events).lanes.Get(PriorityOf(e)), e)
  {
    assert (events + [e])[..|events|] == events;
  }

  // At every priority: while a send waits, the delivery of any response that carries its
  // number and its priority ends the wait, and the send hands over that response's status,
  // whatever it is, and as much of its payload as fits.
  lemma {:induction false} DeliveryEndsWait(cfg: NodeConfig, events: seq<Event>, p: Priority, rsp: Response)
    requires Legal(cfg, events)
    requires var c := Run(cfg, events).lanes.Get(p).client;
      c.phase.Waiting? && ToUint32(rsp.number) == c.phase.number
    requires rsp.priority == p || (p == 1 && !(0 <= rsp.priority <= 2))
    ensures var after := events + [Deliver(rsp)] + [Take(p)] + [CopyOut(p)];
      var c, c' := Run(cfg, events).lanes.Get(p).client, Run(cfg, after).lanes.Get(p).client;
      && Legal(cfg, after)
      && c'.phase.Idle?
      && |c'.outcomes| == |c.outcomes| + 1
      && var o := c'.outcomes[|c.outcomes|];
         o.number == c.phase.number && o.call == c.phase.call && HandsOver(o, rsp, p)
  {
    hide Run, Legal;
    RunClientOk(cfg, events, p);
    var c := Run(cfg, events).lanes.Get(p).client;
    var e1, e2, e3 := Deliver(rsp), Take(p), CopyOut(p);
    var c1 := c.(pending := Reply(rsp.status, Text(rsp.payload, PAYLOAD_LEN), p), sem := 1);
    ClientAfter(cfg, events, e1);
    assert Run(cfg, events + [e1]).lanes.Get(p).client == c1;
    ClientAfter(cfg, events + [e1], e2);
    var c2 := c1.(sem := 0, phase := Phase.Taken(c.phase.number, c.phase.call));
    assert Run(cfg, events + [e1] + [e2]).lanes.Get(p).client == c2;
    ClientAfter(cfg, events + [e1] + [e2], e3);
  }

  // A step of a client, when it is enabled.
  lemma ClientAfter(cfg: NodeConfig, events: seq<Event>, e: Event)
    requires Legal(cfg, events) && Enabled(cfg, Run(cfg, events).lanes.Get(PriorityOf(e)), e)
    ensures Legal(cfg, events + [e])
    ensures Run(cfg, events + [e]).lanes.Get(PriorityOf(e)).client ==
      ApplyClient(Run(cfg, events).lanes.Get(PriorityOf(e)).client, Run(cfg, events).nextSeq, e)
  {
    hide ApplyClient, ApplyServer;
    Extended(cfg, events, e);
  }

  ghost predicate HandsOver(o: Outcome, rsp: Response, p: Priority) {
    && o.reply.Some?
    && o.reply.value.status == rsp.status && o.reply.value.priority == p
    && match rsp.payload
       case None => o.reply.value.payload == ""
       case Some(text) => Holds(text, 127, o.reply.value.payload)
  }

  // ---------------------------------------------------------------- every send ends once

  // The sends claimed at a priority, in order, with their numbers.
  function Claims(cfg: NodeConfig, events: seq<Event>, p: Priority): seq<(Uint32, Call)> {
    if |events| == 0 then []
    else
      var n := |events| - 1;
      Claims(cfg, events[..n], p) +
        (if events[n].Claim? && events[n].call.priority == p
         then [(Run(cfg, events[..n]).nextSeq, events[n].call)] else [])
  }

  function Ended(outcomes: seq<Outcome>): (r: seq<(Uint32, Call)>)
    ensures |r| == |outcomes| && forall k :: 0 <= k < |r| ==> r[k] == (outcomes[k].number, outcomes[k].call)
  {
    seq(|outcomes|, k requires 0 <= k < |outcomes| => (outcomes[k].number, outcomes[k].call))
  }

  function UnderWay(c: Client): seq<(Uint32, Call)> {
    if c.phase.Idle? then [] else [(c.phase.number, c.phase.call)]
  }

  // At each priority the sends made are, in order, those that ended, each with one outcome,
  // and the one under way.
  lemma {:induction false} EverySendEndsOnce(cfg: NodeConfig, events: seq<Event>, p: Priority)
    requires Legal(cfg, events)
    ensures var c := Run(cfg, events).lanes.Get(p).client;
      Claims(cfg, events, p) == Ended(c.outcomes) + UnderWay(c)
  {
    hide ApplyLane, Enabled;
    if |events| > 0 {
      var n := |events| - 1;
      EverySendEndsOnce(cfg, events[..n], p);
      LaneStep(cfg, events, p);
      if PriorityOf(events[n]) == p {
        ClientStepEnds(cfg, Run(cfg, events[..n]), events[n]);
      }
    }
  }

  lemma ClientStepEnds(cfg: NodeConfig, n: NodeState, e: Event)
    requires Enabled(cfg, n.lanes.Get(PriorityOf(e)), e)
    ensures var lane := n.lanes.Get(PriorityOf(e)); var c := lane.client;
      var c' := ApplyLane(cfg, lane, n.nextSeq, e).client;
      Ended(c'.outcomes) + UnderWay(c') ==
        Ended(c.outcomes) + UnderWay(c) + (if e.Claim? then [(n.nextSeq, e.call)] else [])
  {
    var c := n.lanes.Get(PriorityOf(e)).client;
    var c' := ApplyClient(c, n.nextSeq, e);
    if |c'.outcomes| > |c.outcomes| {
      assert c'.outcomes[..|c.outcomes|] == c.outcomes;
      assert Ended(c'.outcomes) == Ended(c.outcomes) + UnderWay(c);
    }
  }

  // ---------------------------------------------------------------- every request can be answered

  ghost predicate Servable(cfg: NodeConfig, item: Item) {
    exists handled :: Handles(cfg, item, handled)
  }

  // However full a queue is: when every lookup and handler call comes to something, the
  // handler thread can go on to answer all that was accepted, first come, first served.
  lemma {:induction false} QueueCanBeDrained(cfg: NodeConfig, events: seq<Event>, p: Priority)
    returns (more: seq<Event>)
    requires Legal(cfg, events)
    requires forall item :: Servable(cfg, item)
    ensures Legal(cfg, events + more)
    ensures var s, s' := Run(cfg, events).lanes.Get(p).server, Run(cfg, events + more).lanes.Get(p).server;
      s'.queue == [] && s'.handling.None? && s'.accepted == s.accepted == Items(s'.answered)
    decreases |Run(cfg, events).lanes.Get(p).server.queue|
  {
    hide Run, Legal, Servable;
    var first := HandlerFreed(cfg, events, p);
    var now := events + first;
    var s := Run(cfg, now).lanes.Get(p).server;
    if |s.queue| == 0 {
      more := first;
      AllAnswered(cfg, now, p);
    } else {
      Taken(cfg, now, p);
      var rest := QueueCanBeDrained(cfg, now + [Dequeue(p)], p);
      more := first + [Dequeue(p)] + rest;
      assert events + more == now + [Dequeue(p)] + rest;
    }
  }

  lemma AllAnswered(cfg: NodeConfig, events: seq<Event>, p: Priority)
    requires var s := Run(cfg, events).lanes.Get(p).server; s.queue == [] && s.handling.None?
    ensures var s := Run(cfg, events).lanes.Get(p).server; s.accepted == Items(s.answered)
  {
    hide Run, Received, Admissions, Picked;
    RequestsConserved(cfg, events, p);
    var s := Run(cfg, events).lanes.Get(p).server;
    assert Items(s.answered) + [] + [] == Items(s.answered);
  }

  lemma Taken(cfg: NodeConfig, events: seq<Event>, p: Priority)
    requires Legal(cfg, events)
    requires var s := Run(cfg, events).lanes.Get(p).server; s.handling.None? && |s.queue| > 0
    ensures var s, s' := Run(cfg, events).lanes.Get(p).server, Run(cfg, events + [Dequeue(p)]).lanes.Get(p).server;
      Legal(cfg, events + [Dequeue(p)]) && s'.queue == s.queue[1..] && s'.accepted == s.accepted
  {
    Extended(cfg, events, Dequeue(p));
    hide Run, Legal;
    var s, s' := Run(cfg, events).lanes.Get(p).server, Run(cfg, events + [Dequeue(p)]).lanes.Get(p).server;
    assert s' == ApplyServer(cfg.depth, s, Dequeue(p));
  }

  lemma HandlerFreed(cfg: NodeConfig, events: seq<Event>, p: Priority) returns (more: seq<Event>)
    requires Legal(cfg, events)
    requires forall item :: Servable(cfg, item)
    ensures Legal(cfg, events + more)
    ensures var s, s' := Run(cfg, events).lanes.Get(p).server, Run(cfg, events + more).lanes.Get(p).server;
      s'.handling.None? && s'.queue == s.queue && s'.accepted == s.accepted
  {
    var s := Run(cfg, events).lanes.Get(p).server;
    if s.handling.None? {
      more := [];
      assert events + more == events;
    } else {
      assert Servable(cfg, s.handling.value);
      var handled :| Handles(cfg, s.handling.value, handled);
      more := [Respond(p, 0, handled)];
      Extended(cfg, events, more[0]);
    }
  }
}
