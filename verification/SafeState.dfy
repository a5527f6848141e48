// The safe-state manager (ceell/core/safe_state.c) and the health callback that
// drives it (src/main.c, on_health_change).
module SafeState {

  datatype HealthState = Healthy | Degraded | Critical | Lost

  // What can happen to the safe state: a health transition reported through
  // the callback, or a trigger from elsewhere (the watchdog thread).
  datatype SafeEvent =
    | Change(nodeId: int, was: HealthState, becomes: HealthState)
    | Trigger(why: int)

  const SAFE_NONE := 0
  const SAFE_CRITICAL_PEER_LOST := 1

  // `notices` records the calls made to a registered safe-state callback.
  datatype SafeValue = SafeValue(active: bool, reason: int, notices: seq<(bool, int)>)

  const InitialSafe := SafeValue(false, SAFE_NONE, [])

  function TriggerSpec(v: SafeValue, reason: int): SafeValue {
    if !v.active then SafeValue(true, reason, v.notices + [(true, reason)])
    else v.(reason := reason)
  }

  function ClearSpec(v: SafeValue): SafeValue {
    if v.active then SafeValue(false, SAFE_NONE, v.notices + [(false, SAFE_NONE)]) else v
  }

  function React(v: SafeValue, e: SafeEvent): SafeValue {
    match e
    case Trigger(why) => TriggerSpec(v, why)
    case Change(_, was, becomes) =>
      if becomes == Lost then TriggerSpec(v, SAFE_CRITICAL_PEER_LOST)
      else if was == Lost && becomes == Healthy then ClearSpec(v)
      else v
  }

  // The safe state after a whole history of events.
  function SafeAfter(events: seq<SafeEvent>): SafeValue {
    if |events| == 0 then InitialSafe
    else React(SafeAfter(events[..|events| - 1]), events[|events| - 1])
  }

  predicate Raises(e: SafeEvent) {
    e.Trigger? || e.becomes == Lost
  }

  predicate Clears(e: SafeEvent) {
    e.Change? && e.was == Lost && e.becomes == Healthy
  }

  function ReasonOf(e: SafeEvent): int {
    if e.Trigger? then e.why else SAFE_CRITICAL_PEER_LOST
  }

  // Event i raised the safe state and nothing has cleared it since.
  ghost predicate StandingRaise(events: seq<SafeEvent>, i: int) {
    0 <= i < |events| && Raises(events[i]) &&
    forall j :: i < j < |events| ==> !Clears(events[j])
  }

  // Event j cleared the safe state and nothing has raised it since.
  ghost predicate StandingClear(events: seq<SafeEvent>, j: int) {
    0 <= j < |events| && Clears(events[j]) &&
    forall k :: j < k < |events| ==> !Raises(events[k])
  }

  // The health state a node has after a history: the last one reported, HEALTHY before any report.
  function Replay(events: seq<SafeEvent>, id: int): HealthState {
    if |events| == 0 then Healthy
    else
      var e := events[|events| - 1];
      if e.Change? && e.nodeId == id then e.becomes else Replay(events[..|events| - 1], id)
  }

  // Every report is a real change and starts where that node's previous report ended.
  ghost predicate Chained(events: seq<SafeEvent>) {
    forall k :: 0 <= k < |events| && events[k].Change? ==>
      events[k].was != events[k].becomes && events[k].was == Replay(events[..k], events[k].nodeId)
  }

  // ---------------------------------------------------------------- properties

  // The safe state is active exactly when some raise has not been cleared since.
  lemma {:induction false} ActiveIff(events: seq<SafeEvent>)
    ensures SafeAfter(events).active <==> exists i :: StandingRaise(events, i)
  {
    if |events| > 0 {
      var n := |events| - 1;
      var front, e := events[..n], events[n];
      ActiveIff(front);
      if SafeAfter(events).active {
        if Raises(e) {
          assert StandingRaise(events, n);
        } else {
          var i :| StandingRaise(front, i);
          assert StandingRaise(events, i);
        }
      }
      if i :| StandingRaise(events, i) && i < n {
        assert StandingRaise(front, i);
      }
    }
  }

  // The reason reported while active is that of the most recent raise.
  lemma {:induction false} ReasonIsLatestRaise(events: seq<SafeEvent>, i: int)
    requires StandingRaise(events, i)
    requires forall j :: i < j < |events| ==> !Raises(events[j])
    ensures SafeAfter(events).active && SafeAfter(events).reason == ReasonOf(events[i])
  {
    var n := |events| - 1;
    var front := events[..n];
    if i < n {
      assert StandingRaise(front, i);
      ReasonIsLatestRaise(front, i);
      assert !Raises(events[n]) && !Clears(events[n]);
    }
  }

  // Callback notices alternate, enter first; the last one tells the current state.
  lemma {:induction false} NoticesAlternate(events: seq<SafeEvent>)
    ensures var v := SafeAfter(events);
      && (forall k :: 0 <= k < |v.notices| ==> (v.notices[k].0 <==> k % 2 == 0))
      && (v.active <==> |v.notices| % 2 == 1)
      && (!v.active ==> v.reason == SAFE_NONE)
  {
    if |events| > 0 {
      NoticesAlternate(events[..|events| - 1]);
    }
  }

  // What the last event of a history adds to the notices: entering is told with the reason of
  // the raise (1 is CRITICAL_PEER_LOST for a move to LOST), leaving with reason 0, and nothing
  // else is told.
  lemma {:induction false} NoticesTell(events: seq<SafeEvent>, e: SafeEvent)
    ensures var v, v' := SafeAfter(events), SafeAfter(events + [e]);
      v'.notices == v.notices +
        (if v'.active && !v.active then [(true, if e.Trigger? then e.why else 1)]
         else if v.active && !v'.active then [(false, 0)] else [])
    ensures Raises(e) ==> SafeAfter(events + [e]).active
    ensures Raises(e) ==> SafeAfter(events + [e]).reason == if e.Trigger? then e.why else 1
  {
    assert (events + [e])[..|events|] == events;
  }

  // A node reported LOST has a latest report, and it is the move to LOST.
  lemma {:induction false} LatestLoss(events: seq<SafeEvent>, p: int) returns (i: int)
    requires Replay(events, p) == Lost
    ensures 0 <= i < |events| && events[i].Change? && events[i].nodeId == p && events[i].becomes == Lost
    ensures forall j :: i < j < |events| && events[j].Change? ==> events[j].nodeId != p
  {
    var n := |events| - 1;
    if events[n].Change? && events[n].nodeId == p {
      i := n;
    } else {
      i := LatestLoss(events[..n], p);
    }
  }

  // When p is LOST yet the safe state is off, some other node recovered from LOST
  // to HEALTHY after p's latest move to LOST.
  lemma {:induction false} LostYetClear(events: seq<SafeEvent>, p: int) returns (i: int, j: int)
    requires Replay(events, p) == Lost && !SafeAfter(events).active
    ensures 0 <= i < j < |events|
    ensures events[i].Change? && events[i].nodeId == p && events[i].becomes == Lost
    ensures forall k :: i < k < |events| && events[k].Change? ==> events[k].nodeId != p
    ensures Clears(events[j]) && events[j].nodeId != p
  {
    i := LatestLoss(events, p);
    ActiveIff(events);
    assert !StandingRaise(events, i);
    j :| i < j < |events| && Clears(events[j]);
  }

  // The exact condition under which "p is LOST" does not give "safe state active":
  // a recovery LOST to HEALTHY was reported and nothing has raised the safe state since.
  lemma {:induction false} LostNotSafeIff(events: seq<SafeEvent>, p: int)
    requires Replay(events, p) == Lost
    ensures !SafeAfter(events).active <==> exists j :: StandingClear(events, j)
  {
    ActiveIff(events);
    if !SafeAfter(events).active {
      var i := LatestLoss(events, p);
      assert Raises(events[i]);
      var j := LastClear(events, i);
      assert StandingClear(events, j);
    } else {
      var i :| StandingRaise(events, i);
      assert forall j :: StandingClear(events, j) ==> !(j < i) && !(i < j) && i != j;
    }
  }

  // When no raise stands, the last clear after a raise has no raise behind it.
  lemma {:induction false} LastClear(events: seq<SafeEvent>, i: int) returns (j: int)
    requires 0 <= i < |events| && Raises(events[i])
    requires forall k :: !StandingRaise(events, k)
    ensures i < j && StandingClear(events, j)
    decreases |events| - i
  {
    assert !StandingRaise(events, i);
    j :| i < j < |events| && Clears(events[j]);
    if k :| j < k < |events| && Raises(events[k]) {
      j := LastClear(events, k);
    }
  }

  // With a single reported node, LOST implies the safe state is active,
  // whatever external triggers are interleaved.
  lemma {:induction false} SingleNodeLostIsSafe(events: seq<SafeEvent>, p: int)
    requires Replay(events, p) == Lost
    requires forall k :: 0 <= k < |events| && events[k].Change? ==> events[k].nodeId == p
    ensures SafeAfter(events).active
  {
    if !SafeAfter(events).active {
      var i, j := LostYetClear(events, p);
    }
  }

  // With two nodes the implication fails: 7 stays LOST, 8 recovers, the safe state is off.
  lemma TwoNodesLostNotSafe()
    ensures var events := [Change(7, Healthy, Lost), Change(8, Healthy, Lost), Change(8, Lost, Healthy)];
      Chained(events) && Replay(events, 7) == Lost && !SafeAfter(events).active
  {
    var e1 := [Change(7, Healthy, Lost)];
    var e2 := e1 + [Change(8, Healthy, Lost)];
    var events := e2 + [Change(8, Lost, Healthy)];
    assert events[..2] == e2 && events[..1] == e1 && events[..0] == [];
    assert e2[..1] == e1 && e1[..0] == [];
    assert Replay(e1, 7) == Lost && Replay(e2, 8) == Lost && Replay(e1, 8) == Healthy;
    assert SafeAfter(e2).active;
  }

  // ---------------------------------------------------------------- the manager

  class SafeStateManager {
    var initialized: bool
    var active: bool
    var reason: int
    ghost var notices: seq<(bool, int)>

    // ceell_safe_state_init, with `ok` the outcome of creating the mutex.
    constructor (ok: bool)
      ensures initialized == ok && Value() == InitialSafe
    {
      initialized := ok;
      active, reason, notices := false, SAFE_NONE, [];
    }

    ghost function Value(): SafeValue
      reads this
    {
      SafeValue(active, reason, notices)
    }

    method TriggerSafe(why: int)
      modifies this
      ensures initialized == old(initialized)
      ensures Value() == if initialized then TriggerSpec(old(Value()), why) else old(Value())
    {
      if !initialized {
        return;
      }
      if !active {
        reason := why;
        active := true;
        notices := notices + [(true, why)];
      } else {
        var current := reason;
        if current != why {
          reason := why;
        }
      }
    }

    method Clear()
      modifies this
      ensures initialized == old(initialized)
      ensures Value() == if initialized then ClearSpec(old(Value())) else old(Value())
    {
      if !initialized {
        return;
      }
      if active {
        active := false;
        reason := SAFE_NONE;
        notices := notices + [(false, SAFE_NONE)];
      }
    }

    method Reason() returns (r: int)
      ensures r == if active then reason else SAFE_NONE
    {
      if !active {
        return SAFE_NONE;
      }
      return reason;
    }

    // on_health_change
    method OnHealthChange(nodeId: int, oldState: HealthState, newState: HealthState)
      modifies this
      ensures initialized == old(initialized)
      ensures Value() ==
        if initialized then React(old(Value()), Change(nodeId, oldState, newState)) else old(Value())
    {
      if newState == Lost {
        TriggerSafe(SAFE_CRITICAL_PEER_LOST);
      } else if oldState == Lost && newState == Healthy {
        Clear();
      }
    }
  }
}
