// How many sends the correlation by sequence number survives: the end-to-end theorem holds
// for 2^32 sends of a node and, between any two nodes, for not one more.
module MessagingWrap {
  import opened Common
  import opened Messaging
  import opened MessagingRuns

  // A send that succeeded, in a run with at most n sends of its node, was answered by its peer.
  ghost predicate Correct(cfgs: seq<NodeConfig>, n: nat, steps: seq<Step>, a: nat, p: Priority, o: Outcome) {
    var sys := After(cfgs, steps);
    (a < |cfgs| && a < |sys.nodes| && |sys.nodes[a].calls| <= n &&
     o in sys.nodes[a].lanes.Get(p).client.outcomes && o.reply.Some?) ==>
    exists ans, t :: PeerAnswered(cfgs, steps, a, o, ans, t)
  }

  // Among two or more honest nodes, every success in every run with up to n sends of its
  // node is an answer to that send exactly when n is at most 2^32.
  lemma {:induction false} CorrectExactly(cfgs: seq<NodeConfig>, n: nat)
    requires |cfgs| >= 2
    ensures (forall steps, a: nat, p: Priority, o :: Correct(cfgs, n, steps, a, p, o)) <==> n <= TWO_TO_THE_32
  {
    hide After, PeerAnswered;
    if n <= TWO_TO_THE_32 {
      forall steps, a: nat, p: Priority, o
        ensures Correct(cfgs, n, steps, a, p, o)
      {
        var sys := After(cfgs, steps);
        if a < |cfgs| && a < |sys.nodes| && |sys.nodes[a].calls| <= n &&
           o in sys.nodes[a].lanes.Get(p).client.outcomes && o.reply.Some? {
          var ans, t := SuccessEndToEnd(cfgs, steps, a, p, o);
        }
      }
    } else {
      var steps, o := OneSendTooMany(cfgs, n);
      assert !Correct(cfgs, n, steps, 0, NORMAL, o);
    }
  }

  // ---------------------------------------------------------------- one send too many

  // Node 0 asks node 1, with a deadline that has passed when node 1 comes to it.
  function Ask(service: string): Call {
    Call(service, "", NORMAL, 1, 1, 0)
  }

  predicate OldReply(d: Datagram) {
    d.dst == 0 && d.body.Rsp? && Normalise(d.body.rsp.priority) == NORMAL && ToUint32(d.body.rsp.number) == 1
  }

  ghost predicate ReplyUnderWay(sys: System) {
    exists d :: d in sys.net && OldReply(d)
  }

  ghost predicate OnlyOldAnswers(sys: System) {
    forall ans: Answer :: AnsweredAt(sys, 1, NORMAL, ans) ==> ans.item.toSvc == "old"
  }

  // Node 0 has given up k sends; node 1 has answered the first of them, and no other, but
  // the answer has not been delivered.
  ghost predicate Pending(cfgs: seq<NodeConfig>, sys: System, k: nat) {
    && |sys.nodes| == |cfgs| >= 2
    && sys.nodes[0].lanes.normal.client.phase.Idle?
    && sys.nodes[0].nextSeq == SeqOf(k) && |sys.nodes[0].calls| == k
    && OnlyOldAnswers(sys) && ReplyUnderWay(sys)
  }

  // Node 0 is waiting for the answer to its first send.
  ghost predicate FirstIsOut(cfgs: seq<NodeConfig>, sys: System) {
    && |sys.nodes| == |cfgs| >= 2
    && sys.nodes[0].nextSeq == SeqOf(1) && |sys.nodes[0].calls| == 1
    && sys.nodes[0].lanes.normal.client.phase.Waiting? && sys.nodes[0].lanes.normal.client.sem == 0
  }

  lemma Extended(cfgs: seq<NodeConfig>, steps: seq<Step>, step: Step)
    ensures After(cfgs, steps + [step]) == SystemStep(cfgs, After(cfgs, steps), step)
  {
    assert (steps + [step])[..|steps|] == steps;
  }

  // Node 0 sends its first request and node 1 has it, accepted or turned away.
  lemma Asked(cfgs: seq<NodeConfig>) returns (steps: seq<Step>)
    requires |cfgs| >= 2
    ensures var sys := After(cfgs, steps);
      && FirstIsOut(cfgs, sys)
      && var s, item := sys.nodes[1].lanes.normal.server, ItemOf(RequestOf(cfgs[0], 1, Ask("old")), 0);
         && s.answered == [] && s.handling.None?
         && if cfgs[1].depth > 0 then s.queue == [item] && s.rejected == []
            else s.queue == [] && s.rejected == [QueueFull(item)] && ReplyUnderWay(sys)
  {
    var s0 := InitialSystem(cfgs);
    var call := Ask("old");
    var d := Datagram(0, 1, Req(RequestOf(cfgs[0], 1, call)));
    var e1, e2, e3 := Local(0, Claim(call)), Local(0, Transmit(NORMAL)), Receive(d);
    steps := [e1] + [e2] + [e3];
    Extended(cfgs, [], e1);
    Extended(cfgs, [e1], e2);
    Extended(cfgs, [e1] + [e2], e3);
    var s1 := SystemStep(cfgs, s0, e1);
    assert [] + [e1] == [e1] && s1 == NodeStep(cfgs, s0, 0, e1.e);
    var s2 := SystemStep(cfgs, s1, e2);
    assert s2 == NodeStep(cfgs, s1, 0, e2.e) && d in s2.net;
    assert s2.nodes[1] == InitialNode;
    var s3 := SystemStep(cfgs, s2, e3);
    assert s3 == NodeStep(cfgs, s2, 1, Arrive(d.body.req, 0));
    if cfgs[1].depth == 0 {
      var r := Datagram(1, 0, Rsp(ResponseOf(cfgs[1], NORMAL, QueueFull(ItemOf(d.body.req, 0)))));
      assert r in s3.net && OldReply(r);
    }
  }

  // Node 1 has answered it.
  lemma Answered(cfgs: seq<NodeConfig>) returns (steps: seq<Step>)
    requires |cfgs| >= 2
    ensures var sys := After(cfgs, steps);
      FirstIsOut(cfgs, sys) && OnlyOldAnswers(sys) && ReplyUnderWay(sys)
  {
    steps := Asked(cfgs);
    if cfgs[1].depth > 0 {
      steps := AnsweredLate(cfgs, steps);
    }
  }

  lemma AnsweredLate(cfgs: seq<NodeConfig>, front: seq<Step>) returns (steps: seq<Step>)
    requires var sys := After(cfgs, front);
      && FirstIsOut(cfgs, sys)
      && var s := sys.nodes[1].lanes.normal.server;
         && s.answered == [] && s.rejected == [] && s.handling.None?
         && s.queue == [ItemOf(RequestOf(cfgs[0], 1, Ask("old")), 0)]
    ensures var sys := After(cfgs, steps);
      FirstIsOut(cfgs, sys) && OnlyOldAnswers(sys) && ReplyUnderWay(sys)
  {
    hide After, OnlyOldAnswers;
    var sys, item := After(cfgs, front), ItemOf(RequestOf(cfgs[0], 1, Ask("old")), 0);
    var e1, e2 := Local(1, Dequeue(NORMAL)), Local(1, Respond(NORMAL, 1, None));
    Extended(cfgs, front, e1);
    Extended(cfgs, front + [e1], e2);
    steps := front + [e1] + [e2];
    var s1 := SystemStep(cfgs, sys, e1);
    assert s1 == NodeStep(cfgs, sys, 1, e1.e) && s1.nodes[1].lanes.normal.server.handling == Some(item);
    var s2 := SystemStep(cfgs, s1, e2);
    assert TooLate(item, 1);
    assert s2 == NodeStep(cfgs, s1, 1, e2.e);
    var r := Datagram(1, 0, Rsp(ResponseOf(cfgs[1], NORMAL, AnswerTo(item, 1, None))));
    assert r in s2.net && OldReply(r);
    OneAnswer(s2, AnswerTo(item, 1, None));
  }

  lemma OneAnswer(sys: System, ans: Answer)
    requires |sys.nodes| >= 2 && ans.item.toSvc == "old"
    requires sys.nodes[1].lanes.normal.server.answered == [ans] && sys.nodes[1].lanes.normal.server.rejected == []
    ensures OnlyOldAnswers(sys)
  {
  }

  lemma GivenUp(cfgs: seq<NodeConfig>) returns (steps: seq<Step>)
    requires |cfgs| >= 2
    ensures Pending(cfgs, After(cfgs, steps), 1)
  {
    hide After;
    steps := Answered(cfgs);
    var sys, e := After(cfgs, steps), Local(0, TimeOut(NORMAL));
    Extended(cfgs, steps, e);
    steps := steps + [e];
    ClientStep(cfgs, sys, e.e);
  }

  // A step of node 0's senders keeps what node 1 did and what is under way.
  lemma ClientStep(cfgs: seq<NodeConfig>, sys: System, e: Event)
    requires |sys.nodes| == |cfgs| >= 2 && OnlyOldAnswers(sys) && ReplyUnderWay(sys)
    ensures var next := NodeStep(cfgs, sys, 0, e);
      |next.nodes| == |cfgs| && OnlyOldAnswers(next) && ReplyUnderWay(next)
  {
    var next := NodeStep(cfgs, sys, 0, e);
    assert next.nodes[1] == sys.nodes[1];
    var d :| d in sys.net && OldReply(d);
    assert d in next.net;
  }

  lemma OneMoreGivenUp(cfgs: seq<NodeConfig>, front: seq<Step>, k: nat) returns (steps: seq<Step>)
    requires Pending(cfgs, After(cfgs, front), k)
    ensures Pending(cfgs, After(cfgs, steps), k + 1)
  {
    hide After, OnlyOldAnswers, ReplyUnderWay;
    var sys, e1, e2 := After(cfgs, front), Local(0, Claim(Ask(""))), Local(0, Abort(NORMAL));
    Extended(cfgs, front, e1);
    Extended(cfgs, front + [e1], e2);
    steps := front + [e1] + [e2];
    var s1 := SystemStep(cfgs, sys, e1);
    assert s1 == NodeStep(cfgs, sys, 0, e1.e);
    ClientStep(cfgs, sys, e1.e);
    ClientStep(cfgs, s1, e2.e);
    NextSeqOf(k);
  }

  lemma {:induction false} ManyGivenUp(cfgs: seq<NodeConfig>, k: nat) returns (steps: seq<Step>)
    requires |cfgs| >= 2 && k >= 1
    ensures Pending(cfgs, After(cfgs, steps), k)
  {
    hide After, Pending;
    if k == 1 {
      steps := GivenUp(cfgs);
    } else {
      var front := ManyGivenUp(cfgs, k - 1);
      steps := OneMoreGivenUp(cfgs, front, k - 1);
    }
  }

  // The send after 2^32 others draws number 1 again, and takes the late answer to the
  // first send for its own.
  lemma OneSendTooMany(cfgs: seq<NodeConfig>, n: nat) returns (steps: seq<Step>, o: Outcome)
    requires |cfgs| >= 2 && n > TWO_TO_THE_32
    ensures !Correct(cfgs, n, steps, 0, NORMAL, o)
  {
    hide After, OnlyOldAnswers, ReplyUnderWay;
    var call := Ask("new");
    var front := ManyGivenUp(cfgs, TWO_TO_THE_32);
    var s0 := After(cfgs, front);
    assert SeqOf(TWO_TO_THE_32) == 1;
    var e1, e2 := Local(0, Claim(call)), Local(0, Transmit(NORMAL));
    var s1 := SystemStep(cfgs, s0, e1);
    assert s1 == NodeStep(cfgs, s0, 0, e1.e);
    ClientStep(cfgs, s0, e1.e);
    var s2 := SystemStep(cfgs, s1, e2);
    assert s2 == NodeStep(cfgs, s1, 0, e2.e);
    ClientStep(cfgs, s1, e2.e);
    var sent := front + [e1] + [e2];
    Extended(cfgs, front, e1);
    Extended(cfgs, front + [e1], e2);
    steps, o := Mistaken(cfgs, sent, n);
  }

  lemma Mistaken(cfgs: seq<NodeConfig>, sent: seq<Step>, n: nat) returns (steps: seq<Step>, o: Outcome)
    requires var sys := After(cfgs, sent);
      && |sys.nodes| == |cfgs| >= 2 && |sys.nodes[0].calls| <= n
      && OnlyOldAnswers(sys) && ReplyUnderWay(sys)
      && var c := sys.nodes[0].lanes.normal.client;
         c.phase == Waiting(1, Ask("new")) && c.pendingSeq == 1 && c.sem == 0
    ensures !Correct(cfgs, n, steps, 0, NORMAL, o)
  {
    hide After, OnlyOldAnswers;
    var s0 := After(cfgs, sent);
    var d :| d in s0.net && OldReply(d);
    hide ReplyUnderWay;
    var e1, e2, e3 := Receive(d), Local(0, Take(NORMAL)), Local(0, CopyOut(NORMAL));
    Extended(cfgs, sent, e1);
    Extended(cfgs, sent + [e1], e2);
    Extended(cfgs, sent + [e1] + [e2], e3);
    steps := sent + [e1] + [e2] + [e3];
    var s1 := SystemStep(cfgs, s0, e1);
    assert s1 == NodeStep(cfgs, s0, 0, Deliver(d.body.rsp));
    ClientStep(cfgs, s0, Deliver(d.body.rsp));
    var s2 := SystemStep(cfgs, s1, e2);
    assert s2 == NodeStep(cfgs, s1, 0, e2.e);
    ClientStep(cfgs, s1, e2.e);
    var s3 := SystemStep(cfgs, s2, e3);
    assert s3 == NodeStep(cfgs, s2, 0, e3.e);
    ClientStep(cfgs, s2, e3.e);
    var outcomes := s3.nodes[0].lanes.normal.client.outcomes;
    o := outcomes[|outcomes| - 1];
    NotAnswered(cfgs, steps, o);
  }

  lemma NotAnswered(cfgs: seq<NodeConfig>, steps: seq<Step>, o: Outcome)
    requires |cfgs| >= 2 && o.call == Ask("new") && OnlyOldAnswers(After(cfgs, steps))
    ensures forall ans, t :: !PeerAnswered(cfgs, steps, 0, o, ans, t)
  {
    hide After;
  }
}
