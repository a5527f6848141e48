// The safe state over runs at the grain of single callbacks. A health update goes through
// its two loops one peer and one slot at a time; announcements, expiry and triggers from
// other threads (the watchdog's) fall anywhere between.
module SafeRuns {
  import opened Common
  import opened SafeState
  import opened Discovery
  import opened HealthMonitor
  import Liveness

  // Where the lifecycle thread stands: outside an update, or with a snapshot of the peer
  // table, i peers and j slots into the loops. `origin` is the health table at the start.
  datatype Phase =
    | Outside
    | Updating(now: int, snapshot: seq<Peer>, origin: seq<Slot>, found: seq<bool>, i: nat, j: nat)

  datatype State = State(peers: seq<Peer>, m: Monitor, phase: Phase)

  datatype Step =
    | Hear(msg: Announcement, t: int)
    | Purge(t: int)
    | Begin(now: int)
    | NextPeer
    | NextSlot
    | End
    | Interrupt(why: int)

  // Program order of the lifecycle thread; the other threads' steps are always possible.
  predicate Enabled(s: State, step: Step) {
    match step
    case Hear(_, _) => true
    case Interrupt(_) => true
    case Purge(_) => s.phase.Outside?
    case Begin(_) => s.phase.Outside?
    case NextPeer =>
      s.phase.Updating? && s.phase.i < |s.phase.snapshot| && |s.phase.found| == |s.m.slots|
    case NextSlot =>
      s.phase.Updating? && s.phase.i == |s.phase.snapshot| && s.phase.j < |s.phase.found| == |s.m.slots|
    case End => s.phase.Updating? && s.phase.i == |s.phase.snapshot| && s.phase.j == |s.phase.found|
  }

  // A step that is not enabled does not happen.
  function Do(cfg: Config, s: State, step: Step): State {
    if !Enabled(s, step) then s
    else
      match step
      case Hear(msg, t) => s.(peers := AnnounceSpec(cfg, s.peers, msg, t))
      case Purge(t) => s.(peers := ExpireSpec(s.peers, t, cfg.timeout))
      case Begin(now) => s.(phase := Updating(now, s.peers, s.m.slots, NothingFound(|s.m.slots|), 0, 0))
      case NextPeer =>
        var c := Track(cfg, Scan(s.m, s.phase.found), s.phase.snapshot[s.phase.i], s.phase.now);
        s.(m := c.m, phase := s.phase.(found := c.found, i := s.phase.i + 1))
      case NextSlot =>
        s.(m := Drop(s.m, s.phase.j, s.phase.found[s.phase.j]), phase := s.phase.(j := s.phase.j + 1))
      case End => s.(phase := Outside)
      case Interrupt(why) => s.(m := Liveness.TriggerFromOutside(s.m, why))
  }

  function Run(cfg: Config, steps: seq<Step>): State {
    if |steps| == 0 then State([], Liveness.Initial(cfg).monitor, Outside)
    else Do(cfg, Run(cfg, steps[..|steps| - 1]), steps[|steps| - 1])
  }

  // ---------------------------------------------------------------- invariant

  // Also in the middle of an update the log chains, and replays to the health table and to
  // the safe state.
  lemma {:induction false} RunOk(cfg: Config, steps: seq<Step>)
    ensures MonitorOk(Run(cfg, steps).m) && |Run(cfg, steps).m.slots| == cfg.maxPeers
  {
    hide Do, MonitorOk;
    if |steps| == 0 {
      InitialOk(cfg);
    } else {
      RunOk(cfg, steps[..|steps| - 1]);
      StepOk(cfg, Run(cfg, steps[..|steps| - 1]), steps[|steps| - 1]);
    }
  }

  lemma InitialOk(cfg: Config)
    ensures MonitorOk(Liveness.Initial(cfg).monitor)
  {
  }

  lemma {:induction false} StepOk(cfg: Config, s: State, step: Step)
    requires MonitorOk(s.m)
    ensures MonitorOk(Do(cfg, s, step).m) && |Do(cfg, s, step).m.slots| == |s.m.slots|
  {
    hide MonitorOk, Track, Drop, SlotsPersist;
    if Enabled(s, step) {
      NobodyMoved(s.m.slots);
      match step
      case NextPeer =>
        TrackOk(cfg, Scan(s.m, s.phase.found), s.phase.snapshot[s.phase.i], s.phase.now, s.m.slots);
      case NextSlot => DropOk(s.m, s.phase.j, s.phase.found[s.phase.j], s.m.slots);
      case Interrupt(why) => Liveness.TriggerKeepsMonitor(s.m, why);
      case _ =>
    }
  }

  lemma NobodyMoved(slots: seq<Slot>)
    ensures SlotsPersist(slots, slots)
  {
  }

  // ---------------------------------------------------------------- safe state

  ghost predicate TrackedLost(m: Monitor, p: Uint32) {
    HasSlot(m.slots, p) && GetStateSpec(m.slots, p) == Lost
  }

  // In every reachable state: when a tracked peer is LOST and the safe state is off, some
  // other peer moved from LOST to HEALTHY after this peer's latest move to LOST.
  lemma {:induction false} LostPeerYetNotSafe(cfg: Config, steps: seq<Step>, p: Uint32) returns (i: int, j: int)
    requires TrackedLost(Run(cfg, steps).m, p) && !Run(cfg, steps).m.safe.active
    ensures var log := Run(cfg, steps).m.log;
      && 0 <= i < j < |log|
      && log[i].Change? && log[i].nodeId == p && log[i].becomes == Lost
      && (forall k :: i < k < |log| && log[k].Change? ==> log[k].nodeId != p)
      && Clears(log[j]) && log[j].nodeId != p
  {
    hide Run;
    RunOk(cfg, steps);
    i, j := LostYetClear(Run(cfg, steps).m.log, p);
  }

  // The exact exception: the safe state is off although a tracked peer is LOST if and only
  // if a recovery was reported and nothing has raised the safe state since.
  lemma {:induction false} LostNotSafeExactly(cfg: Config, steps: seq<Step>, p: Uint32)
    requires TrackedLost(Run(cfg, steps).m, p)
    ensures var m := Run(cfg, steps).m;
      !m.safe.active <==> exists j :: StandingClear(m.log, j)
  {
    hide Run;
    RunOk(cfg, steps);
    LostNotSafeIff(Run(cfg, steps).m.log, p);
  }

  // With a single tracked peer, LOST implies the safe state is active, in every reachable
  // state and wherever external triggers fall.
  lemma {:induction false} OnlyPeerLostIsSafe(cfg: Config, steps: seq<Step>, p: Uint32)
    requires var m := Run(cfg, steps).m;
      TrackedLost(m, p) && forall i :: 0 <= i < |m.slots| && m.slots[i].active ==> m.slots[i].nodeId == p
    ensures Run(cfg, steps).m.safe.active
  {
    hide Run;
    RunOk(cfg, steps);
    SingleNodeLostIsSafe(Run(cfg, steps).m.log, p);
  }

  // ---------------------------------------------------------------- undisturbed updates

  // A monitor that only has a table.
  function Bare(slots: seq<Slot>): Monitor {
    Monitor(slots, false, [], InitialSafe, false)
  }

  // An update in progress has done to the table it began with what its specification says
  // of the turns taken so far.
  ghost predicate OnCourse(cfg: Config, s: State) {
    s.phase.Updating? ==>
    var u := s.phase;
    && u.i <= |u.snapshot| && u.j <= |u.found| == |u.origin| == |s.m.slots|
    && (u.i < |u.snapshot| ==> u.j == 0)
    && var c := TrackFirst(cfg, Scan(Bare(u.origin), NothingFound(|u.origin|)), u.snapshot, u.i, u.now);
       u.found == c.found && s.m.slots == DropFirst(c.m, c.found, u.j).slots
  }

  // The health table an update leaves is determined by the table, the snapshot and the time
  // it began with, whatever other threads do before it ends.
  lemma {:induction false} UpdateUndisturbed(cfg: Config, steps: seq<Step>)
    requires Enabled(Run(cfg, steps), End)
    ensures var s := Run(cfg, steps);
      s.m.slots == UpdateSpec(cfg, Bare(s.phase.origin), s.phase.snapshot, s.phase.now).slots
  {
    hide Run, TrackFirst, DropFirst;
    StaysOnCourse(cfg, steps);
  }

  lemma {:induction false} StaysOnCourse(cfg: Config, steps: seq<Step>)
    ensures OnCourse(cfg, Run(cfg, steps))
  {
    hide Do, OnCourse;
    if |steps| == 0 {
      NotUnderWay(cfg, Run(cfg, steps));
    } else {
      StaysOnCourse(cfg, steps[..|steps| - 1]);
      StepOnCourse(cfg, Run(cfg, steps[..|steps| - 1]), steps[|steps| - 1]);
    }
  }

  lemma NotUnderWay(cfg: Config, s: State)
    requires s.phase.Outside?
    ensures OnCourse(cfg, s)
  {
  }

  lemma {:induction false} StepOnCourse(cfg: Config, s: State, step: Step)
    requires OnCourse(cfg, s)
    ensures OnCourse(cfg, Do(cfg, s, step))
  {
    hide Track, Drop, AnnounceSpec, ExpireSpec;
    if Enabled(s, step) && s.phase.Updating? {
      var u := s.phase;
      var c := TrackFirst(cfg, Scan(Bare(u.origin), NothingFound(|u.origin|)), u.snapshot, u.i, u.now);
      match step
      case NextPeer => TrackAlike(cfg, Scan(s.m, u.found), c, u.snapshot[u.i], u.now);
      case NextSlot => DropAlike(s.m, DropFirst(c.m, c.found, u.j), u.j, u.found[u.j]);
      case _ =>
    }
  }

  // What a turn does to the table depends on the table only.
  lemma TrackAlike(cfg: Config, a: Scan, b: Scan, p: Peer, now: int)
    requires a.m.slots == b.m.slots && a.found == b.found && |a.found| == |a.m.slots|
    ensures Track(cfg, a, p, now).m.slots == Track(cfg, b, p, now).m.slots
    ensures Track(cfg, a, p, now).found == Track(cfg, b, p, now).found
  {
    hide Observed, Allocated, SlotFor;
  }

  lemma DropAlike(a: Monitor, b: Monitor, j: nat, found: bool)
    requires a.slots == b.slots && j < |a.slots|
    ensures Drop(a, j, found).slots == Drop(b, j, found).slots
  {
  }

  // ---------------------------------------------------------------- updates as one step

  lemma Extended(cfg: Config, steps: seq<Step>, step: Step)
    ensures Run(cfg, steps + [step]) == Do(cfg, Run(cfg, steps), step)
  {
    assert (steps + [step])[..|steps|] == steps;
  }

  // Undisturbed, the first n turns of the first loop are what the update's specification says.
  lemma {:induction false} PeersTracked(cfg: Config, front: seq<Step>, now: int, n: nat) returns (steps: seq<Step>)
    requires Run(cfg, front).phase.Outside? && n <= |Run(cfg, front).peers|
    ensures var s := Run(cfg, front);
      var c := TrackFirst(cfg, Scan(s.m, NothingFound(|s.m.slots|)), s.peers, n, now);
      Run(cfg, steps) == State(s.peers, c.m, Updating(now, s.peers, s.m.slots, c.found, n, 0))
  {
    hide Run, Track;
    if n == 0 {
      steps := front + [Begin(now)];
      Extended(cfg, front, Begin(now));
    } else {
      var before := PeersTracked(cfg, front, now, n - 1);
      steps := before + [NextPeer];
      Extended(cfg, before, NextPeer);
    }
  }

  lemma {:induction false} SlotsDropped(cfg: Config, front: seq<Step>, n: nat) returns (steps: seq<Step>)
    requires var s := Run(cfg, front);
      s.phase.Updating? && s.phase.i == |s.phase.snapshot| && s.phase.j == 0 && n <= |s.phase.found| == |s.m.slots|
    ensures var s := Run(cfg, front);
      Run(cfg, steps) == State(s.peers, DropFirst(s.m, s.phase.found, n), s.phase.(j := n))
  {
    hide Run, Drop;
    if n == 0 {
      steps := front;
    } else {
      var before := SlotsDropped(cfg, front, n - 1);
      steps := before + [NextSlot];
      Extended(cfg, before, NextSlot);
    }
  }

  // Every run in which updates are single events is one of these runs.
  lemma {:induction false} EventsAreSteps(cfg: Config, events: seq<Liveness.Event>) returns (steps: seq<Step>)
    ensures var s := Liveness.Run(cfg, events);
      Run(cfg, steps) == State(s.peers, s.monitor, Outside)
  {
    hide Run, TrackFirst, DropFirst, AnnounceSpec;
    if |events| == 0 {
      steps := [];
      RunEmpty(cfg);
    } else {
      var n := |events| - 1;
      steps := EventsAreSteps(cfg, events[..n]);
      match events[n]
      case Announce(msg, t) =>
        Extended(cfg, steps, Hear(msg, t));
        steps := steps + [Hear(msg, t)];
      case Expire(t) =>
        Extended(cfg, steps, Purge(t));
        steps := steps + [Purge(t)];
      case External(why) =>
        Extended(cfg, steps, Interrupt(why));
        steps := steps + [Interrupt(why)];
      case Update(now) =>
        steps := WholeUpdate(cfg, steps, now);
    }
  }

  lemma RunEmpty(cfg: Config)
    ensures Run(cfg, []) == State([], Liveness.Initial(cfg).monitor, Outside)
  {
  }

  lemma WholeUpdate(cfg: Config, front: seq<Step>, now: int) returns (steps: seq<Step>)
    requires Run(cfg, front).phase.Outside?
    ensures var s := Run(cfg, front);
      Run(cfg, steps) == s.(m := UpdateSpec(cfg, s.m, s.peers, now))
  {
    hide Run, TrackFirst, DropFirst;
    var s := Run(cfg, front);
    var tracked := PeersTracked(cfg, front, now, |s.peers|);
    var dropped := SlotsDropped(cfg, tracked, |s.m.slots|);
    steps := dropped + [End];
    Extended(cfg, dropped, End);
  }
}
