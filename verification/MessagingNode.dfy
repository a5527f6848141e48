// The static variables of ceell/network/messaging.c and the critical sections that
// change them, proved against the event model.
module MessagingNode {
  import opened Common
  import opened Messaging

  class Endpoint {
    const cfg: NodeConfig
    var nextSeq: Uint32
    const pendingSeq: array<Uint32>
    const pendingRsp: array<Reply>
    const rspSem: array<nat>
    var critQueue: seq<Item>
    var normQueue: seq<Item>
    var bulkQueue: seq<Item>
    // The event model's state: these variables, each thread's position, and the history.
    ghost var model: NodeState

    ghost predicate Valid()
      reads this, pendingSeq, pendingRsp, rspSem
    {
      && pendingSeq.Length == pendingRsp.Length == rspSem.Length == 3
      && model.nextSeq == nextSeq
      && (forall p: Priority ::
            && model.lanes.Get(p).client.pendingSeq == pendingSeq[p]
            && model.lanes.Get(p).client.pending == pendingRsp[p]
            && model.lanes.Get(p).client.sem == rspSem[p]
            && model.lanes.Get(p).server.queue == QueueFor(p))
    }

    // ceell_messaging_init
    constructor (cfg: NodeConfig)
      ensures Valid() && this.cfg == cfg && model == InitialNode
      ensures fresh(pendingSeq) && fresh(pendingRsp) && fresh(rspSem)
    {
      this.cfg := cfg;
      nextSeq := 1;
      pendingSeq := new Uint32[3](_ => 0);
      pendingRsp := new Reply[3](_ => ZeroReply);
      rspSem := new nat[3](_ => 0);
      critQueue, normQueue, bulkQueue := [], [], [];
      model := InitialNode;
    }

    // msgq_for_priority
    function QueueFor(p: Priority): seq<Item>
      reads this
    {
      match p
      case 0 => critQueue
      case 2 => bulkQueue
      case _ => normQueue
    }

    method SetQueue(p: Priority, queue: seq<Item>)
      modifies this`critQueue, this`normQueue, this`bulkQueue
      ensures QueueFor(p) == queue
      ensures forall q: Priority :: q != p ==> QueueFor(q) == old(QueueFor(q))
    {
      if p == CRITICAL {
        critQueue := queue;
      } else if p == BULK {
        bulkQueue := queue;
      } else {
        normQueue := queue;
      }
    }

    // Claiming the response slot in ceell_msg_send_pri. An invalid priority is treated as NORMAL.
    method ClaimSlot(service: string, payload: string, priority: int, deadlineMs: Uint16, dst: int, sendTime: int)
      returns (number: Uint32, ghost call: Call)
      requires Valid() && model.lanes.Get(Normalise(priority)).client.phase.Idle?
      modifies this, pendingSeq, pendingRsp, rspSem
      ensures Valid() && number == old(nextSeq)
      ensures call == Call(service, payload, Normalise(priority), deadlineMs, dst, sendTime)
      ensures model == Apply(cfg, old(model), Claim(call))
    {
      var pri := if 0 <= priority < 3 then priority else NORMAL;
      number := nextSeq;
      nextSeq := ToUint32(nextSeq + 1);
      pendingSeq[pri] := number;
      pendingRsp[pri] := ZeroReply;
      rspSem[pri] := 0;
      call := Call(service, payload, pri, deadlineMs, dst, sendTime);
      model := Apply(cfg, model, Claim(call));
    }

    // Encoding and sending the request; `ok` says whether both succeeded.
    method SendRequest(number: Uint32, call: Call, ok: bool) returns (out: Option<(int, Body)>)
      requires Valid() && model.lanes.Get(call.priority).client.phase == Claimed(number, call)
      modifies this`model
      ensures Valid()
      ensures ok ==> model == Apply(cfg, old(model), Transmit(call.priority))
      ensures ok ==> out == Output(cfg, old(model), Transmit(call.priority))
      ensures !ok ==> model == Apply(cfg, old(model), Abort(call.priority)) && out == None
    {
      if !ok {
        model := Apply(cfg, model, Abort(call.priority));
        return None;
      }
      out := Some((call.dst, Req(Request(ToInt32(number), cfg.id, Some(call.service), Some(call.payload),
                                         call.priority, call.deadlineMs, call.sendTime))));
      model := Apply(cfg, model, Transmit(call.priority));
    }

    // ceell_sem_take once it stops waiting: a count was there, or the timeout passed.
    method TakeSemaphore(pri: Priority) returns (ok: bool)
      requires Valid() && model.lanes.Get(pri).client.phase.Waiting?
      modifies this`model, rspSem
      ensures Valid() && (ok <==> old(rspSem[pri]) > 0)
      ensures model == Apply(cfg, old(model), if ok then Take(pri) else TimeOut(pri))
    {
      ok := rspSem[pri] > 0;
      if ok {
        rspSem[pri] := rspSem[pri] - 1;
        model := Apply(cfg, model, Take(pri));
      } else {
        model := Apply(cfg, model, TimeOut(pri));
      }
    }

    // Copying the response out.
    method CopyResponse(pri: Priority) returns (rsp: Reply)
      requires Valid() && model.lanes.Get(pri).client.phase.Taken?
      modifies this`model
      ensures Valid() && model == Apply(cfg, old(model), CopyOut(pri))
      ensures var outcomes := model.lanes.Get(pri).client.outcomes;
        |outcomes| > 0 && outcomes[|outcomes| - 1].reply == Some(rsp)
    {
      rsp := pendingRsp[pri];
      rsp := rsp.(priority := pri);
      model := Apply(cfg, model, CopyOut(pri));
    }

    // handle_response
    method HandleResponse(rsp: Response)
      requires Valid()
      modifies this`model, pendingRsp, rspSem
      ensures Valid() && model == Apply(cfg, old(model), Deliver(rsp))
    {
      var pri := NORMAL;
      if 0 <= rsp.priority < 3 {
        pri := rsp.priority;
      }
      if ToUint32(rsp.number) == pendingSeq[pri] {
        var text := "";
        if rsp.payload.Some? {
          text := Truncate(rsp.payload.value, PAYLOAD_LEN);
        }
        pendingRsp[pri] := Reply(rsp.status, text, pri);
        rspSem[pri] := 1;
      }
      model := Apply(cfg, model, Deliver(rsp));
    }

    // The dispatcher's handling of a request: queue it or answer "queue full" at once.
    method HandleRequest(req: Request, src: int) returns (out: Option<(int, Body)>)
      requires Valid()
      modifies this
      ensures Valid() && nextSeq == old(nextSeq) && model == Apply(cfg, old(model), Arrive(req, src))
      ensures out == Output(cfg, old(model), Arrive(req, src))
    {
      var pri := NORMAL;
      if 0 <= req.priority < 3 {
        pri := req.priority;
      }
      var item := Item(Text(req.payload, PAYLOAD_LEN), Text(req.toSvc, SERVICE_LEN), req.number, req.fromId,
                       pri, req.deadlineMs, req.sendTime, src);
      var queue := QueueFor(pri);
      out := None;
      if |queue| < cfg.depth {
        SetQueue(pri, queue + [item]);
      } else {
        out := Some((src, Rsp(Response(req.number, cfg.id, -ENOMEM, Some("queue full"), pri))));
      }
      model := Apply(cfg, model, Arrive(req, src));
    }

    // One datagram through the dispatcher thread.
    method Dispatch(body: Body, src: int) returns (out: Option<(int, Body)>)
      requires Valid()
      modifies this, pendingRsp, rspSem
      ensures Valid()
      ensures model == match body
        case Req(req) => Apply(cfg, old(model), Arrive(req, src))
        case Rsp(rsp) => Apply(cfg, old(model), Deliver(rsp))
        case Garbage => old(model)
      ensures out == if body.Req? then Output(cfg, old(model), Arrive(body.req, src)) else None
    {
      out := None;
      match body
      case Req(req) => out := HandleRequest(req, src);
      case Rsp(rsp) => HandleResponse(rsp);
      case Garbage =>
    }

    // ceell_msgq_get in a handler thread, with an item to get.
    method NextItem(pri: Priority) returns (item: Item)
      requires Valid() && model.lanes.Get(pri).server.handling.None? && |QueueFor(pri)| > 0
      modifies this
      ensures Valid() && nextSeq == old(nextSeq) && model == Apply(cfg, old(model), Dequeue(pri))
      ensures model.lanes.Get(pri).server.handling == Some(item)
    {
      var queue := QueueFor(pri);
      item := queue[0];
      SetQueue(pri, queue[1..]);
      model := Apply(cfg, model, Dequeue(pri));
    }

    // The rest of a handler thread's turn; `handled` is the service handler's result,
    // absent when no handler is registered for the item's service.
    method AnswerItem(pri: Priority, item: Item, now: int, handled: Option<(int, string)>)
      returns (out: Option<(int, Body)>)
      requires Valid() && model.lanes.Get(pri).server.handling == Some(item)
      modifies this`model
      ensures Valid() && model == Apply(cfg, old(model), Respond(pri, now, handled))
      ensures out == Output(cfg, old(model), Respond(pri, now, handled))
    {
      var status, text := 0, "";
      if item.deadlineMs > 0 && DeadlineExpired(item.deadlineMs % 0x1_0000, item.sendTime, now) {
        status, text := -ETIMEDOUT, "deadline expired";
      } else if handled.None? {
        status, text := -ENOENT, "unknown service";
      } else {
        status, text := handled.value.0, handled.value.1;
      }
      out := Some((item.src, Rsp(Response(item.number, cfg.id, status, Some(text), pri))));
      model := Apply(cfg, model, Respond(pri, now, handled));
    }
  }
}
