// The health table of ceell/core/health_monitor.c: a second, never-shrinking table
// that follows the peer table and reports every transition through a callback.
module HealthMonitor {
  import opened Common
  import opened SafeState
  import opened Discovery

  datatype Slot = Slot(nodeId: Uint32, state: HealthState, lastSeen: int, missedCount: int, active: bool)

  const ZeroSlot := Slot(0, Healthy, 0, 0, false)

  // The monitor's whole state: its slots, whether on_health_change is registered,
  // every event the safe state has been told of, and that safe state itself.
  datatype Monitor = Monitor(slots: seq<Slot>, cb: bool, log: seq<SafeEvent>, safe: SafeValue, safeReady: bool)

  // The monitor in the middle of an update, with the marks of the slots refreshed so far.
  datatype Scan = Scan(m: Monitor, found: seq<bool>)

  // `(int)(elapsed / interval) - 1`, for intervals that are not negative. Where the
  // subtraction overflows an int, which C leaves undefined, it is taken to wrap.
  function Missed(cfg: Config, elapsed: int): int {
    ToInt32(ToInt32(elapsed / cfg.interval) - 1)
  }

  function ComputeState(cfg: Config, now: int, lastSeen: int): HealthState {
    var elapsed := now - lastSeen;
    if elapsed <= cfg.interval then Healthy
    else
      var missed := Missed(cfg, elapsed);
      if missed <= 2 then Degraded
      else if elapsed >= cfg.timeout then Lost
      else Critical
  }

  function MissedCount(cfg: Config, now: int, lastSeen: int): int {
    var missed := Missed(cfg, now - lastSeen);
    if missed < 0 then 0 else missed
  }

  // First active slot of a node, |slots| when there is none.
  function IndexOfActive(slots: seq<Slot>, id: Uint32): (i: nat)
    ensures i <= |slots|
    ensures i < |slots| ==> slots[i].active && slots[i].nodeId == id
    ensures forall k :: 0 <= k < i ==> !(slots[k].active && slots[k].nodeId == id)
  {
    if |slots| == 0 || (slots[0].active && slots[0].nodeId == id) then 0
    else 1 + IndexOfActive(slots[1..], id)
  }

  function IndexOfFree(slots: seq<Slot>): (i: nat)
    ensures i <= |slots|
    ensures i < |slots| ==> !slots[i].active
    ensures forall k :: 0 <= k < i ==> slots[k].active
  {
    if |slots| == 0 || !slots[0].active then 0 else 1 + IndexOfFree(slots[1..])
  }

  // Where find_or_alloc puts a node: its active slot, else the first free one.
  function SlotFor(slots: seq<Slot>, id: Uint32): (r: Option<nat>)
    ensures r.Some? ==> r.value < |slots|
  {
    var i, j := IndexOfActive(slots, id), IndexOfFree(slots);
    if i < |slots| then Some(i) else if j < |slots| then Some(j) else None
  }

  function Allocated(slots: seq<Slot>, id: Uint32): (r: seq<Slot>)
    ensures |r| == |slots|
  {
    match SlotFor(slots, id)
    case None => slots
    case Some(i) => if slots[i].active then slots else slots[i := Slot(id, Healthy, 0, 0, true)]
  }

  function GetStateSpec(slots: seq<Slot>, id: Uint32): HealthState {
    var i := IndexOfActive(slots, id);
    if i < |slots| then slots[i].state else Lost
  }

  function Notify(m: Monitor, e: SafeEvent): Monitor {
    if !m.cb then m
    else m.(log := m.log + [e], safe := if m.safeReady then React(m.safe, e) else m.safe)
  }

  // A slot after its peer was seen in the snapshot.
  function Observed(cfg: Config, s: Slot, lastSeen: int, now: int): Slot {
    var state := ComputeState(cfg, now, lastSeen);
    if state == s.state then s.(lastSeen := lastSeen)
    else s.(lastSeen := lastSeen, state := state,
            missedCount := if state == Healthy then 0 else MissedCount(cfg, now, lastSeen))
  }

  function StoreSlot(m: Monitor, i: nat, s: Slot): Monitor
    requires i < |m.slots|
  {
    var m' := m.(slots := m.slots[i := s]);
    if s.state != m.slots[i].state then Notify(m', Change(s.nodeId, m.slots[i].state, s.state)) else m'
  }

  // One turn of the loop over the discovered peers.
  function Track(cfg: Config, c: Scan, p: Peer, now: int): (r: Scan)
    requires |c.found| == |c.m.slots|
    ensures |r.m.slots| == |c.m.slots| && |r.found| == |c.found|
  {
    match SlotFor(c.m.slots, p.nodeId)
    case None => c
    case Some(i) =>
      var m := c.m.(slots := Allocated(c.m.slots, p.nodeId));
      Scan(StoreSlot(m, i, Observed(cfg, m.slots[i], p.lastSeen, now)), c.found[i := true])
  }

  function TrackFirst(cfg: Config, c: Scan, peers: seq<Peer>, n: nat, now: int): (r: Scan)
    requires n <= |peers| && |c.found| == |c.m.slots|
    ensures |r.m.slots| == |c.m.slots| && |r.found| == |c.found|
  {
    if n == 0 then c else Track(cfg, TrackFirst(cfg, c, peers, n - 1, now), peers[n - 1], now)
  }

  // One turn of the loop over the slots: an active slot nobody refreshed becomes LOST.
  function Drop(m: Monitor, i: nat, found: bool): (r: Monitor)
    requires i < |m.slots|
    ensures |r.slots| == |m.slots|
  {
    var s := m.slots[i];
    if s.active && !found && s.state != Lost then StoreSlot(m, i, s.(state := Lost, missedCount := -1)) else m
  }

  function DropFirst(m: Monitor, found: seq<bool>, n: nat): (r: Monitor)
    requires n <= |m.slots| == |found|
    ensures |r.slots| == |m.slots|
  {
    if n == 0 then m else Drop(DropFirst(m, found, n - 1), n - 1, found[n - 1])
  }

  function NothingFound(n: nat): (r: seq<bool>)
    ensures |r| == n && forall k :: 0 <= k < n ==> !r[k]
  {
    seq(n, _ => false)
  }

  function TrackAll(cfg: Config, m: Monitor, peers: seq<Peer>, now: int): (r: Scan)
    ensures |r.m.slots| == |r.found| == |m.slots|
  {
    TrackFirst(cfg, Scan(m, NothingFound(|m.slots|)), peers, |peers|, now)
  }

  function UpdateSpec(cfg: Config, m: Monitor, peers: seq<Peer>, now: int): (r: Monitor)
    ensures |r.slots| == |m.slots|
  {
    var c := TrackAll(cfg, m, peers, now);
    DropFirst(c.m, c.found, |c.found|)
  }

  // ---------------------------------------------------------------- invariants

  // Active slots have distinct ids.
  ghost predicate SlotsOk(slots: seq<Slot>) {
    forall i, j :: 0 <= i < j < |slots| && slots[i].active && slots[j].active ==> slots[i].nodeId != slots[j].nodeId
  }

  // Once active, a slot stays with its node.
  ghost predicate SlotsPersist(before: seq<Slot>, after: seq<Slot>) {
    |before| == |after| &&
    forall i :: 0 <= i < |before| && before[i].active ==> after[i].active && after[i].nodeId == before[i].nodeId
  }

  ghost predicate HasSlot(slots: seq<Slot>, id: int) {
    exists i :: 0 <= i < |slots| && slots[i].active && slots[i].nodeId == id
  }

  // The callback log replays to the table: it chains per node, every active slot
  // holds its node's last reported state, and only nodes with a slot were reported.
  ghost predicate LogReplays(slots: seq<Slot>, log: seq<SafeEvent>) {
    && Chained(log)
    && (forall i :: 0 <= i < |slots| && slots[i].active ==> slots[i].state == Replay(log, slots[i].nodeId))
    && (forall k :: 0 <= k < |log| && log[k].Change? ==> HasSlot(slots, log[k].nodeId))
  }

  // The missed count fits the state; -1 marks a peer gone from discovery.
  ghost predicate MissedFits(s: Slot) {
    match s.state
    case Healthy => s.missedCount == 0
    case Degraded => 0 <= s.missedCount <= 2
    case Critical => s.missedCount >= 3
    case Lost => s.missedCount == -1 || s.missedCount >= 3
  }

  ghost predicate MonitorOk(m: Monitor) {
    && SlotsOk(m.slots) && LogReplays(m.slots, m.log) && m.safe == SafeAfter(m.log) && m.cb && m.safeReady
    && forall i :: 0 <= i < |m.slots| && m.slots[i].active ==> MissedFits(m.slots[i])
  }

  // ---------------------------------------------------------------- properties

  // What the state of a peer should be, in terms of the silence since it was last heard.
  function Classify(cfg: Config, elapsed: int): HealthState {
    if elapsed <= cfg.interval then Healthy
    else if elapsed < 4 * cfg.interval then Degraded
    else if elapsed < cfg.timeout then Critical
    else Lost
  }

  // The narrowing of the interval count is harmless for under 2^31 missed intervals.
  lemma ComputeIsClassify(cfg: Config, now: int, lastSeen: int)
    requires now - lastSeen < 0x8000_0000 * cfg.interval
    ensures ComputeState(cfg, now, lastSeen) == Classify(cfg, now - lastSeen)
  {
    var elapsed := now - lastSeen;
    if elapsed > cfg.interval {
      QuotientBounds(elapsed, cfg.interval);
    }
  }

  lemma QuotientBounds(a: int, b: int)
    requires 0 < b < a < 0x8000_0000 * b
    ensures 0 <= a / b < 0x8000_0000
    ensures a / b <= 3 <==> a < 4 * b
  {
    var q := a / b;
    assert a == q * b + a % b;
    MulOrder(q, -1, b);
    MulOrder(0x8000_0000, q, b);
    MulOrder(q, 3, b);
    MulOrder(4, q, b);
  }

  lemma MulOrder(x: int, y: int, b: int)
    requires 0 < b
    ensures x <= y ==> x * b <= y * b
  {
  }

  // With no bound on the silence: the state is right exactly when fewer than 2^31 intervals
  // have passed or their number modulo 2^32 is 4 to 2^31.
  lemma {:induction false} ComputeRightIff(cfg: Config, now: int, lastSeen: int)
    ensures var q := (now - lastSeen) / cfg.interval;
      ComputeState(cfg, now, lastSeen) == Classify(cfg, now - lastSeen) <==>
        q < 0x8000_0000 || 4 <= q % 0x1_0000_0000 <= 0x8000_0000
  {
    hide ToInt32;
    var elapsed := now - lastSeen;
    var q := elapsed / cfg.interval;
    assert elapsed == q * cfg.interval + elapsed % cfg.interval;
    if q < 0x8000_0000 {
      MulOrder(q, 0x7FFF_FFFF, cfg.interval);
      ComputeIsClassify(cfg, now, lastSeen);
    } else {
      MulOrder(0x8000_0000, q, cfg.interval);
      assert elapsed >= 0x8000_0000 * cfg.interval >= 0x8000_0000 > cfg.timeout;
      NarrowedCount(q);
    }
  }

  // The count after narrowing: at most 2 missed unless its low 32 bits are 4 to 2^31.
  lemma NarrowedCount(q: nat)
    ensures ToInt32(ToInt32(q) - 1) <= 2 <==> !(4 <= q % 0x1_0000_0000 <= 0x8000_0000)
  {
  }

  // One interval more than 2^31, where all the arithmetic is defined: a peer silent for
  // that long looks DEGRADED, whatever the interval and timeout.
  lemma {:induction false} NarrowingMisclassifies(cfg: Config)
    ensures ComputeState(cfg, 0x8000_0001 * cfg.interval, 0) == Degraded
    ensures Classify(cfg, 0x8000_0001 * cfg.interval) == Lost
  {
    var elapsed := 0x8000_0001 * cfg.interval;
    var q := elapsed / cfg.interval;
    assert elapsed == q * cfg.interval + elapsed % cfg.interval;
    MulOrder(q, 0x8000_0000, cfg.interval);
    MulOrder(0x8000_0002, q, cfg.interval);
    assert q == 0x8000_0001;
    ComputeRightIff(cfg, elapsed, 0);
  }

  // Health and expiry disagree on exactly one millisecond: a peer silent for just the timeout
  // is LOST and still kept in discovery, unless the timeout is below 4 intervals.
  lemma {:induction false} LostYetKeptIff(cfg: Config, p: Peer, now: int)
    ensures ComputeState(cfg, now, p.lastSeen) == Lost && !Stale(p, now, cfg.timeout) <==>
      now - p.lastSeen == cfg.timeout >= 4 * cfg.interval
  {
    hide ComputeState;
    if now - p.lastSeen <= cfg.timeout {
      MulOrder(1, cfg.interval, 0x8000_0000);
      ComputeIsClassify(cfg, now, p.lastSeen);
    }
  }

  lemma AllocatedOk(slots: seq<Slot>, id: Uint32)
    requires SlotsOk(slots)
    ensures SlotsOk(Allocated(slots, id)) && SlotsPersist(slots, Allocated(slots, id))
    ensures SlotFor(slots, id).Some? ==>
      var s := Allocated(slots, id)[SlotFor(slots, id).value]; s.active && s.nodeId == id
    ensures SlotFor(slots, id).None? <==>
      forall k :: 0 <= k < |slots| ==> slots[k].active && slots[k].nodeId != id
  {
    var i := IndexOfActive(slots, id);
    if SlotFor(slots, id).None? {
      assert i == |slots| && IndexOfFree(slots) == |slots|;
    }
  }

  // Allocating a slot for a node never reported leaves the log replaying to the table.
  lemma {:induction false} AllocatedReplays(slots: seq<Slot>, log: seq<SafeEvent>, id: Uint32)
    requires SlotsOk(slots) && LogReplays(slots, log)
    ensures LogReplays(Allocated(slots, id), log)
  {
    var after := Allocated(slots, id);
    AllocatedOk(slots, id);
    PersistKeepsReported(slots, after, log);
    if IndexOfActive(slots, id) == |slots| {
      assert !HasSlot(slots, id);
      UnreportedIsHealthy(log, id);
    }
  }

  lemma {:induction false} UnreportedIsHealthy(log: seq<SafeEvent>, id: int)
    requires forall k :: 0 <= k < |log| && log[k].Change? ==> log[k].nodeId != id
    ensures Replay(log, id) == Healthy
  {
    if |log| > 0 {
      UnreportedIsHealthy(log[..|log| - 1], id);
    }
  }

  lemma PersistKeepsReported(before: seq<Slot>, after: seq<Slot>, log: seq<SafeEvent>)
    requires SlotsPersist(before, after)
    requires forall k :: 0 <= k < |log| && log[k].Change? ==> HasSlot(before, log[k].nodeId)
    ensures forall k :: 0 <= k < |log| && log[k].Change? ==> HasSlot(after, log[k].nodeId)
  {
    forall k | 0 <= k < |log| && log[k].Change?
      ensures HasSlot(after, log[k].nodeId)
    {
      var i :| 0 <= i < |before| && before[i].active && before[i].nodeId == log[k].nodeId;
      assert after[i].active && after[i].nodeId == log[k].nodeId;
    }
  }

  lemma {:induction false} ChainedExtend(log: seq<SafeEvent>, e: SafeEvent)
    requires Chained(log)
    requires e.Change? ==> e.was != e.becomes && e.was == Replay(log, e.nodeId)
    ensures Chained(log + [e])
  {
    var log' := log + [e];
    forall k | 0 <= k < |log'| && log'[k].Change?
      ensures log'[k].was != log'[k].becomes && log'[k].was == Replay(log'[..k], log'[k].nodeId)
    {
      if k < |log| {
        assert log'[..k] == log[..k];
      } else {
        assert log'[..k] == log;
      }
    }
  }

  lemma ReplayExtend(log: seq<SafeEvent>, e: SafeEvent, id: int)
    ensures Replay(log + [e], id) == if e.Change? && e.nodeId == id then e.becomes else Replay(log, id)
    ensures SafeAfter(log + [e]) == React(SafeAfter(log), e)
  {
    assert (log + [e])[..|log|] == log;
  }

  // Storing a slot of the same node keeps every invariant, reported or not.
  lemma {:induction false} StoreSlotOk(m: Monitor, i: nat, s: Slot)
    requires MonitorOk(m) && i < |m.slots| && m.slots[i].active
    requires s.active && s.nodeId == m.slots[i].nodeId && MissedFits(s)
    ensures MonitorOk(StoreSlot(m, i, s)) && SlotsPersist(m.slots, StoreSlot(m, i, s).slots)
  {
    hide LogReplays, MissedFits, React;
    StoreReplays(m.slots, m.log, i, s);
    ReplayExtend(m.log, Change(s.nodeId, m.slots[i].state, s.state), 0);
  }

  lemma {:induction false} StoreReplays(slots: seq<Slot>, log: seq<SafeEvent>, i: nat, s: Slot)
    requires SlotsOk(slots) && LogReplays(slots, log) && i < |slots| && slots[i].active
    requires s.active && s.nodeId == slots[i].nodeId
    ensures var e := Change(s.nodeId, slots[i].state, s.state);
      LogReplays(slots[i := s], if s.state != slots[i].state then log + [e] else log)
  {
    hide Chained, Replay;
    var after, e := slots[i := s], Change(s.nodeId, slots[i].state, s.state);
    PersistKeepsReported(slots, after, log);
    if s.state != slots[i].state {
      ChainedExtend(log, e);
      forall k | 0 <= k < |after| && after[k].active
        ensures after[k].state == Replay(log + [e], after[k].nodeId)
      {
        ReplayExtend(log, e, after[k].nodeId);
        assert k != i ==> after[k] == slots[k];
      }
      assert after[i].active && after[i].nodeId == e.nodeId;
      assert HasSlot(after, e.nodeId);
    }
  }

  // A slot records when its peer was last heard. When the state changes, the missed count is
  // that of the whole intervals gone by after the first; otherwise it stays.
  lemma {:induction false} ObservedRecords(cfg: Config, s: Slot, lastSeen: int, now: int)
    ensures var r := Observed(cfg, s, lastSeen, now); var elapsed := now - lastSeen;
      && r.lastSeen == lastSeen && r.active == s.active && r.nodeId == s.nodeId
      && (r.state == s.state ==> r.missedCount == s.missedCount)
      && (MissedFits(s) ==> MissedFits(r))
      && (r.state != s.state && r.state != Healthy && elapsed < 0x8000_0000 * cfg.interval ==>
            (r.missedCount + 1) * cfg.interval <= elapsed < (r.missedCount + 2) * cfg.interval)
  {
    hide ToInt32;
    var elapsed := now - lastSeen;
    if cfg.interval < elapsed < 0x8000_0000 * cfg.interval {
      MissedIntervals(cfg, elapsed);
    }
  }

  lemma MissedIntervals(cfg: Config, elapsed: int)
    requires cfg.interval < elapsed < 0x8000_0000 * cfg.interval
    ensures var missed := Missed(cfg, elapsed);
      0 <= missed && (missed + 1) * cfg.interval <= elapsed < (missed + 2) * cfg.interval
  {
    var q := elapsed / cfg.interval;
    assert elapsed == q * cfg.interval + elapsed % cfg.interval;
    assert (q + 1) * cfg.interval == q * cfg.interval + cfg.interval;
    QuotientBounds(elapsed, cfg.interval);
    MulOrder(q + 1, 1, cfg.interval);
  }

  lemma {:induction false} TrackOk(cfg: Config, c: Scan, p: Peer, now: int, origin: seq<Slot>)
    requires MonitorOk(c.m) && |c.found| == |c.m.slots| && SlotsPersist(origin, c.m.slots)
    ensures MonitorOk(Track(cfg, c, p, now).m) && SlotsPersist(origin, Track(cfg, c, p, now).m.slots)
  {
    AllocatedOk(c.m.slots, p.nodeId);
    AllocatedReplays(c.m.slots, c.m.log, p.nodeId);
    if SlotFor(c.m.slots, p.nodeId).Some? {
      var i := SlotFor(c.m.slots, p.nodeId).value;
      var m := c.m.(slots := Allocated(c.m.slots, p.nodeId));
      ObservedRecords(cfg, m.slots[i], p.lastSeen, now);
      StoreSlotOk(m, i, Observed(cfg, m.slots[i], p.lastSeen, now));
    }
  }

  lemma {:induction false} TrackFirstOk(cfg: Config, c: Scan, peers: seq<Peer>, n: nat, now: int)
    requires MonitorOk(c.m) && |c.found| == |c.m.slots| && n <= |peers|
    ensures MonitorOk(TrackFirst(cfg, c, peers, n, now).m)
    ensures SlotsPersist(c.m.slots, TrackFirst(cfg, c, peers, n, now).m.slots)
  {
    hide Track, MonitorOk;
    if n > 0 {
      TrackFirstOk(cfg, c, peers, n - 1, now);
      TrackNextOk(cfg, c, peers, n - 1, now);
    }
  }

  lemma {:induction false} TrackNextOk(cfg: Config, c: Scan, peers: seq<Peer>, n: nat, now: int)
    requires |c.found| == |c.m.slots| && n < |peers|
    requires MonitorOk(TrackFirst(cfg, c, peers, n, now).m)
    requires SlotsPersist(c.m.slots, TrackFirst(cfg, c, peers, n, now).m.slots)
    ensures MonitorOk(TrackFirst(cfg, c, peers, n + 1, now).m)
    ensures SlotsPersist(c.m.slots, TrackFirst(cfg, c, peers, n + 1, now).m.slots)
  {
    hide Track, MonitorOk, SlotsPersist;
    TrackOk(cfg, TrackFirst(cfg, c, peers, n, now), peers[n], now, c.m.slots);
  }

  lemma {:induction false} DropOk(m: Monitor, j: nat, found: bool, origin: seq<Slot>)
    requires MonitorOk(m) && j < |m.slots| && SlotsPersist(origin, m.slots)
    ensures MonitorOk(Drop(m, j, found)) && SlotsPersist(origin, Drop(m, j, found).slots)
  {
    hide MonitorOk, StoreSlot;
    var s := m.slots[j];
    if s.active && !found && s.state != Lost {
      StoreSlotOk(m, j, s.(state := Lost, missedCount := -1));
    }
  }

  lemma {:induction false} DropFirstOk(m: Monitor, found: seq<bool>, n: nat)
    requires MonitorOk(m) && n <= |m.slots| == |found|
    ensures MonitorOk(DropFirst(m, found, n)) && SlotsPersist(m.slots, DropFirst(m, found, n).slots)
  {
    hide MonitorOk, Drop;
    if n > 0 {
      DropFirstOk(m, found, n - 1);
      DropOk(DropFirst(m, found, n - 1), n - 1, found[n - 1], m.slots);
    }
  }

  // Whatever the snapshot and the time, an update keeps the active ids distinct, never
  // moves a slot to another node, and leaves a chained log that replays to the table
  // and to the safe state.
  lemma {:induction false} UpdateKeepsMonitor(cfg: Config, m: Monitor, peers: seq<Peer>, now: int)
    requires MonitorOk(m)
    ensures MonitorOk(UpdateSpec(cfg, m, peers, now))
    ensures SlotsPersist(m.slots, UpdateSpec(cfg, m, peers, now).slots)
  {
    var c := TrackAll(cfg, m, peers, now);
    TrackFirstOk(cfg, Scan(m, NothingFound(|m.slots|)), peers, |peers|, now);
    DropFirstOk(c.m, c.found, |c.found|);
  }

  // ---------------------------------------------------------------- what an update computes

  // Peer p of the snapshot is the one behind slot i.
  ghost predicate Matches(slots: seq<Slot>, i: nat, p: Peer)
    requires i < |slots|
  {
    slots[i].active && slots[i].nodeId == p.nodeId
  }

  // Every slot of one of the first n peers is marked and holds that peer's state.
  ghost predicate TrackedStates(cfg: Config, slots: seq<Slot>, found: seq<bool>, peers: seq<Peer>, n: nat, now: int)
    requires n <= |peers| && |found| == |slots|
  {
    forall k, i :: 0 <= k < n && 0 <= i < |slots| && Matches(slots, i, peers[k]) ==>
      found[i] && slots[i].state == ComputeState(cfg, now, peers[k].lastSeen) && slots[i].lastSeen == peers[k].lastSeen
  }

  // Every marked slot is that of one of the first n peers.
  ghost predicate MarksJustified(slots: seq<Slot>, found: seq<bool>, peers: seq<Peer>, n: nat)
    requires n <= |peers| && |found| == |slots|
  {
    forall i :: 0 <= i < |slots| && found[i] ==> InSnapshot(slots, i, peers, n)
  }

  ghost predicate InSnapshot(slots: seq<Slot>, i: nat, peers: seq<Peer>, n: nat)
    requires n <= |peers| && i < |slots|
  {
    exists k :: 0 <= k < n && Matches(slots, i, peers[k])
  }

  ghost predicate Tracked(cfg: Config, c: Scan, peers: seq<Peer>, n: nat, now: int)
    requires n <= |peers| && |c.found| == |c.m.slots|
  {
    TrackedStates(cfg, c.m.slots, c.found, peers, n, now) && MarksJustified(c.m.slots, c.found, peers, n)
  }

  // Tracking peer p writes exactly one slot, p's own, or none when there is no room.
  ghost predicate TrackEffect(cfg: Config, c: Scan, p: Peer, now: int, r: Scan)
    requires |c.found| == |c.m.slots|
  {
    match SlotFor(c.m.slots, p.nodeId)
    case None => r == c && forall k :: 0 <= k < |c.m.slots| ==> !Matches(c.m.slots, k, p)
    case Some(i) =>
      && r.found == c.found[i := true]
      && |r.m.slots| == |c.m.slots|
      && (forall k :: 0 <= k < |c.m.slots| && k != i ==> r.m.slots[k] == c.m.slots[k])
      && Matches(r.m.slots, i, p)
      && r.m.slots[i].state == ComputeState(cfg, now, p.lastSeen) && r.m.slots[i].lastSeen == p.lastSeen
      && (c.m.slots[i].active ==> c.m.slots[i].nodeId == p.nodeId)
      && (forall k :: 0 <= k < |c.m.slots| && k != i ==> !Matches(c.m.slots, k, p))
  }

  lemma TrackHasEffect(cfg: Config, c: Scan, p: Peer, now: int)
    requires SlotsOk(c.m.slots) && |c.found| == |c.m.slots|
    ensures TrackEffect(cfg, c, p, now, Track(cfg, c, p, now))
    ensures SlotsOk(Track(cfg, c, p, now).m.slots)
    ensures SlotsPersist(c.m.slots, Track(cfg, c, p, now).m.slots)
  {
    hide Track, TrackEffect, SlotsOk, SlotsPersist;
    TrackWritesOneSlot(cfg, c, p, now);
    EffectKeepsSlots(cfg, c, p, now, Track(cfg, c, p, now));
  }

  lemma TrackWritesOneSlot(cfg: Config, c: Scan, p: Peer, now: int)
    requires SlotsOk(c.m.slots) && |c.found| == |c.m.slots|
    ensures TrackEffect(cfg, c, p, now, Track(cfg, c, p, now))
  {
    hide ComputeState;
    AllocatedOk(c.m.slots, p.nodeId);
  }

  lemma EffectKeepsSlots(cfg: Config, c: Scan, p: Peer, now: int, r: Scan)
    requires SlotsOk(c.m.slots) && |c.found| == |c.m.slots|
    requires TrackEffect(cfg, c, p, now, r)
    ensures SlotsOk(r.m.slots) && SlotsPersist(c.m.slots, r.m.slots)
  {
    forall i, j | 0 <= i < j < |r.m.slots| && r.m.slots[i].active && r.m.slots[j].active
      ensures r.m.slots[i].nodeId != r.m.slots[j].nodeId
    {
      var slot := SlotFor(c.m.slots, p.nodeId);
      if slot.Some? && (i == slot.value || j == slot.value) {
        var other := if i == slot.value then j else i;
        assert !Matches(c.m.slots, other, p);
      }
    }
  }

  lemma {:induction false} EffectKeepsStates(
      cfg: Config, c: Scan, r: Scan, peers: seq<Peer>, n: nat, now: int)
    requires |c.found| == |c.m.slots| && |r.found| == |r.m.slots| && n < |peers| && Distinct(peers)
    requires TrackEffect(cfg, c, peers[n], now, r) && SlotsOk(r.m.slots)
    requires TrackedStates(cfg, c.m.slots, c.found, peers, n, now)
    ensures TrackedStates(cfg, r.m.slots, r.found, peers, n + 1, now)
  {
    var slot := SlotFor(c.m.slots, peers[n].nodeId);
    forall k, i | 0 <= k < n + 1 && 0 <= i < |r.m.slots| && Matches(r.m.slots, i, peers[k])
      ensures r.found[i] && r.m.slots[i].state == ComputeState(cfg, now, peers[k].lastSeen)
      ensures r.m.slots[i].lastSeen == peers[k].lastSeen
    {
      if k < n {
        assert peers[k].nodeId != peers[n].nodeId;
        assert slot.Some? ==> i != slot.value;
        assert Matches(c.m.slots, i, peers[k]);
      } else if slot.Some? {
        assert Matches(r.m.slots, slot.value, peers[n]);
        assert i == slot.value;
      }
    }
  }

  lemma {:induction false} EffectKeepsMarks(
      cfg: Config, c: Scan, r: Scan, peers: seq<Peer>, n: nat, now: int)
    requires |c.found| == |c.m.slots| && |r.found| == |r.m.slots| && n < |peers|
    requires TrackEffect(cfg, c, peers[n], now, r)
    requires MarksJustified(c.m.slots, c.found, peers, n)
    ensures MarksJustified(r.m.slots, r.found, peers, n + 1)
  {
    var slot := SlotFor(c.m.slots, peers[n].nodeId);
    forall i | 0 <= i < |r.m.slots| && r.found[i]
      ensures InSnapshot(r.m.slots, i, peers, n + 1)
    {
      if slot.Some? && i == slot.value {
        assert Matches(r.m.slots, i, peers[n]);
      } else {
        assert c.found[i] && InSnapshot(c.m.slots, i, peers, n);
        var k :| 0 <= k < n && Matches(c.m.slots, i, peers[k]);
        assert Matches(r.m.slots, i, peers[k]);
      }
    }
  }

  lemma {:induction false} TrackFirstSlotsOk(cfg: Config, c: Scan, peers: seq<Peer>, n: nat, now: int)
    requires SlotsOk(c.m.slots) && |c.found| == |c.m.slots| && n <= |peers|
    ensures SlotsOk(TrackFirst(cfg, c, peers, n, now).m.slots)
  {
    hide Track, SlotsOk;
    if n > 0 {
      TrackFirstSlotsOk(cfg, c, peers, n - 1, now);
      TrackNextSlotsOk(cfg, c, peers, n - 1, now);
    }
  }

  lemma {:induction false} TrackNextSlotsOk(cfg: Config, c: Scan, peers: seq<Peer>, n: nat, now: int)
    requires |c.found| == |c.m.slots| && n < |peers|
    requires SlotsOk(TrackFirst(cfg, c, peers, n, now).m.slots)
    ensures SlotsOk(TrackFirst(cfg, c, peers, n + 1, now).m.slots)
  {
    hide Track, SlotsOk, TrackEffect, SlotsPersist;
    TrackHasEffect(cfg, TrackFirst(cfg, c, peers, n, now), peers[n], now);
  }

  lemma {:induction false} TrackStates(cfg: Config, c: Scan, peers: seq<Peer>, n: nat, now: int)
    requires SlotsOk(c.m.slots) && |c.found| == |c.m.slots| && n < |peers| && Distinct(peers)
    requires Tracked(cfg, c, peers, n, now)
    ensures Tracked(cfg, Track(cfg, c, peers[n], now), peers, n + 1, now)
  {
    var r := Track(cfg, c, peers[n], now);
    TrackHasEffect(cfg, c, peers[n], now);
    EffectKeepsStates(cfg, c, r, peers, n, now);
    EffectKeepsMarks(cfg, c, r, peers, n, now);
  }

  lemma {:induction false} TrackFirstStates(cfg: Config, c: Scan, peers: seq<Peer>, n: nat, now: int)
    requires SlotsOk(c.m.slots) && |c.found| == |c.m.slots| && n <= |peers| && Distinct(peers)
    requires forall i :: 0 <= i < |c.found| ==> !c.found[i]
    ensures Tracked(cfg, TrackFirst(cfg, c, peers, n, now), peers, n, now)
  {
    hide Track, Tracked, SlotsOk, Distinct;
    if n == 0 {
      NothingTracked(cfg, c, peers, now);
    } else {
      TrackFirstStates(cfg, c, peers, n - 1, now);
      TrackNextStates(cfg, c, peers, n - 1, now);
    }
  }

  lemma NothingTracked(cfg: Config, c: Scan, peers: seq<Peer>, now: int)
    requires |c.found| == |c.m.slots| && forall i :: 0 <= i < |c.found| ==> !c.found[i]
    ensures Tracked(cfg, c, peers, 0, now)
  {
  }

  lemma {:induction false} TrackNextStates(cfg: Config, c: Scan, peers: seq<Peer>, n: nat, now: int)
    requires SlotsOk(c.m.slots) && |c.found| == |c.m.slots| && n < |peers| && Distinct(peers)
    requires Tracked(cfg, TrackFirst(cfg, c, peers, n, now), peers, n, now)
    ensures Tracked(cfg, TrackFirst(cfg, c, peers, n + 1, now), peers, n + 1, now)
  {
    hide Track, Tracked, SlotsOk, Distinct;
    TrackFirstSlotsOk(cfg, c, peers, n, now);
    TrackStates(cfg, TrackFirst(cfg, c, peers, n, now), peers, n, now);
  }

  lemma {:induction false} DropFirstStates(m: Monitor, found: seq<bool>, n: nat)
    requires n <= |m.slots| == |found|
    ensures var r := DropFirst(m, found, n);
      forall i :: 0 <= i < |m.slots| ==>
        && r.slots[i].active == m.slots[i].active && r.slots[i].nodeId == m.slots[i].nodeId
        && r.slots[i].lastSeen == m.slots[i].lastSeen
        && (r.slots[i].state == m.slots[i].state ==> r.slots[i] == m.slots[i])
        && (r.slots[i].state != m.slots[i].state ==> r.slots[i].missedCount == -1)
        && r.slots[i].state ==
          if i < n && m.slots[i].active && !found[i] then Lost else m.slots[i].state
  {
    if n > 0 {
      DropFirstStates(m, found, n - 1);
    }
  }

  // After an update every node reads as its classification when it is in the snapshot
  // and holds a slot, and as LOST otherwise, however it left the peer table.
  lemma {:induction false} UpdateStates(cfg: Config, m: Monitor, peers: seq<Peer>, now: int, id: Uint32)
    requires MonitorOk(m) && Distinct(peers)
    ensures var slots := UpdateSpec(cfg, m, peers, now).slots; var k := IndexOf(peers, id);
      GetStateSpec(slots, id) ==
        if k < |peers| && HasSlot(slots, id) then ComputeState(cfg, now, peers[k].lastSeen) else Lost
  {
    var c := TrackAll(cfg, m, peers, now);
    var start := Scan(m, NothingFound(|m.slots|));
    TrackFirstStates(cfg, start, peers, |peers|, now);
    TrackFirstOk(cfg, start, peers, |peers|, now);
    DropFirstStates(c.m, c.found, |c.found|);
    var slots := UpdateSpec(cfg, m, peers, now).slots;
    var i, k := IndexOfActive(slots, id), IndexOf(peers, id);
    if i < |slots| {
      assert HasSlot(slots, id);
      if k < |peers| {
        assert Matches(c.m.slots, i, peers[k]);
      } else {
        assert !c.found[i];
      }
    } else {
      assert !HasSlot(slots, id);
    }
  }

  // After an update the slot of every node in the snapshot records when that node was last
  // heard.
  lemma {:induction false} UpdateRecords(cfg: Config, m: Monitor, peers: seq<Peer>, now: int, i: nat, k: nat)
    requires MonitorOk(m) && Distinct(peers) && i < |m.slots| && k < |peers|
    requires Matches(UpdateSpec(cfg, m, peers, now).slots, i, peers[k])
    ensures UpdateSpec(cfg, m, peers, now).slots[i].lastSeen == peers[k].lastSeen
  {
    var c := TrackAll(cfg, m, peers, now);
    TrackFirstStates(cfg, Scan(m, NothingFound(|m.slots|)), peers, |peers|, now);
    DropFirstStates(c.m, c.found, |c.found|);
    assert Matches(c.m.slots, i, peers[k]);
  }

  // Without a callback an update reports nothing, and without a safe-state manager it does
  // not touch the safe state.
  lemma {:induction false} ReportsOnlyWhenWired(cfg: Config, m: Monitor, peers: seq<Peer>, now: int)
    ensures var r := UpdateSpec(cfg, m, peers, now);
      && r.cb == m.cb && r.safeReady == m.safeReady
      && (!m.cb ==> r.log == m.log)
      && (!m.cb || !m.safeReady ==> r.safe == m.safe)
  {
    hide Track, Drop;
    var c := TrackAll(cfg, m, peers, now);
    TrackedQuietly(cfg, Scan(m, NothingFound(|m.slots|)), peers, |peers|, now);
    DroppedQuietly(c.m, c.found, |c.found|);
  }

  ghost predicate Quiet(m: Monitor, r: Monitor) {
    && r.cb == m.cb && r.safeReady == m.safeReady
    && (!m.cb ==> r.log == m.log) && (!m.cb || !m.safeReady ==> r.safe == m.safe)
  }

  lemma {:induction false} TrackedQuietly(cfg: Config, c: Scan, peers: seq<Peer>, n: nat, now: int)
    requires |c.found| == |c.m.slots| && n <= |peers|
    ensures Quiet(c.m, TrackFirst(cfg, c, peers, n, now).m)
  {
    hide Track;
    if n > 0 {
      TrackedQuietly(cfg, c, peers, n - 1, now);
      TrackQuietly(cfg, TrackFirst(cfg, c, peers, n - 1, now), peers[n - 1], now);
    }
  }

  lemma TrackQuietly(cfg: Config, c: Scan, p: Peer, now: int)
    requires |c.found| == |c.m.slots|
    ensures Quiet(c.m, Track(cfg, c, p, now).m)
  {
    hide Observed, Allocated, SlotFor;
  }

  lemma {:induction false} DroppedQuietly(m: Monitor, found: seq<bool>, n: nat)
    requires n <= |m.slots| == |found|
    ensures Quiet(m, DropFirst(m, found, n))
  {
    if n > 0 {
      DroppedQuietly(m, found, n - 1);
    }
  }

  // ---------------------------------------------------------------- room in the tables

  // Every active slot belongs to one of these nodes.
  ghost predicate SlotsWithin(slots: seq<Slot>, ids: set<int>) {
    forall i :: 0 <= i < |slots| && slots[i].active ==> slots[i].nodeId in ids
  }

  // find_or_alloc cannot fail for a node among at most |slots| known ones.
  lemma {:induction false} RoomForSlot(slots: seq<Slot>, ids: set<int>, id: Uint32)
    requires SlotsOk(slots) && SlotsWithin(slots, ids) && id in ids && |ids| <= |slots|
    ensures SlotFor(slots, id).Some?
  {
    AllocatedOk(slots, id);
    if forall k :: 0 <= k < |slots| ==> slots[k].active && slots[k].nodeId != id {
      var xs: seq<int> := seq(|slots|, i requires 0 <= i < |slots| => slots[i].nodeId);
      PigeonHole([id] + xs, ids);
    }
  }

  // Tracking a known node keeps the slots to known nodes and gives it one if there is room.
  lemma {:induction false} TrackSlots(cfg: Config, c: Scan, p: Peer, now: int, ids: set<int>)
    requires SlotsOk(c.m.slots) && |c.found| == |c.m.slots|
    requires SlotsWithin(c.m.slots, ids) && p.nodeId in ids
    ensures SlotsWithin(Track(cfg, c, p, now).m.slots, ids)
    ensures |ids| <= |c.m.slots| ==> HasSlot(Track(cfg, c, p, now).m.slots, p.nodeId)
  {
    var r := Track(cfg, c, p, now);
    TrackHasEffect(cfg, c, p, now);
    if |ids| <= |c.m.slots| {
      RoomForSlot(c.m.slots, ids, p.nodeId);
      assert Matches(r.m.slots, SlotFor(c.m.slots, p.nodeId).value, p);
    }
  }

  ghost predicate AllHaveSlots(slots: seq<Slot>, peers: seq<Peer>, n: nat)
    requires n <= |peers|
  {
    forall k :: 0 <= k < n ==> HasSlot(slots, peers[k].nodeId)
  }

  // With room for all known nodes, tracking a snapshot of known nodes slots every one of them.
  lemma {:induction false} TrackFirstSlots(cfg: Config, c: Scan, peers: seq<Peer>, n: nat, now: int, ids: set<int>)
    requires SlotsOk(c.m.slots) && |c.found| == |c.m.slots| && n <= |peers|
    requires SlotsWithin(c.m.slots, ids)
    requires forall k :: 0 <= k < |peers| ==> peers[k].nodeId in ids
    ensures SlotsWithin(TrackFirst(cfg, c, peers, n, now).m.slots, ids)
    ensures |ids| <= |c.m.slots| ==> AllHaveSlots(TrackFirst(cfg, c, peers, n, now).m.slots, peers, n)
  {
    hide Track, SlotsOk, SlotsWithin;
    if n > 0 {
      TrackFirstSlots(cfg, c, peers, n - 1, now, ids);
      TrackNextSlots(cfg, c, peers, n - 1, now, ids);
    }
  }

  lemma {:induction false} TrackNextSlots(cfg: Config, c: Scan, peers: seq<Peer>, n: nat, now: int, ids: set<int>)
    requires SlotsOk(c.m.slots) && |c.found| == |c.m.slots| && n < |peers| && peers[n].nodeId in ids
    requires SlotsWithin(TrackFirst(cfg, c, peers, n, now).m.slots, ids)
    requires |ids| <= |c.m.slots| ==> AllHaveSlots(TrackFirst(cfg, c, peers, n, now).m.slots, peers, n)
    ensures SlotsWithin(TrackFirst(cfg, c, peers, n + 1, now).m.slots, ids)
    ensures |ids| <= |c.m.slots| ==> AllHaveSlots(TrackFirst(cfg, c, peers, n + 1, now).m.slots, peers, n + 1)
  {
    hide Track, AllHaveSlots, SlotsOk, SlotsWithin;
    TrackFirstSlotsOk(cfg, c, peers, n, now);
    TrackMoreSlots(cfg, TrackFirst(cfg, c, peers, n, now), peers, n, now, ids);
  }

  lemma {:induction false} TrackMoreSlots(cfg: Config, c: Scan, peers: seq<Peer>, n: nat, now: int, ids: set<int>)
    requires SlotsOk(c.m.slots) && |c.found| == |c.m.slots| && n < |peers|
    requires SlotsWithin(c.m.slots, ids) && peers[n].nodeId in ids
    requires |ids| <= |c.m.slots| ==> AllHaveSlots(c.m.slots, peers, n)
    ensures SlotsWithin(Track(cfg, c, peers[n], now).m.slots, ids)
    ensures |ids| <= |c.m.slots| ==> AllHaveSlots(Track(cfg, c, peers[n], now).m.slots, peers, n + 1)
  {
    TrackSlots(cfg, c, peers[n], now, ids);
    if |ids| <= |c.m.slots| {
      TrackHasEffect(cfg, c, peers[n], now);
      SlotsStay(c.m.slots, Track(cfg, c, peers[n], now).m.slots, peers, n);
    }
  }

  lemma SlotsStay(before: seq<Slot>, after: seq<Slot>, peers: seq<Peer>, n: nat)
    requires SlotsPersist(before, after) && n <= |peers|
    requires AllHaveSlots(before, peers, n)
    ensures AllHaveSlots(after, peers, n)
  {
    forall k | 0 <= k < n
      ensures HasSlot(after, peers[k].nodeId)
    {
      PersistKeepsSlot(before, after, peers[k].nodeId);
    }
  }

  lemma PersistKeepsSlot(before: seq<Slot>, after: seq<Slot>, id: int)
    requires SlotsPersist(before, after) && HasSlot(before, id)
    ensures HasSlot(after, id)
  {
    var i :| 0 <= i < |before| && before[i].active && before[i].nodeId == id;
    assert after[i].active && after[i].nodeId == id;
  }

  lemma {:induction false} UpdateSlots(cfg: Config, m: Monitor, peers: seq<Peer>, now: int, ids: set<int>)
    requires MonitorOk(m) && SlotsWithin(m.slots, ids)
    requires forall k :: 0 <= k < |peers| ==> peers[k].nodeId in ids
    ensures var slots := UpdateSpec(cfg, m, peers, now).slots;
      && SlotsWithin(slots, ids)
      && (|ids| <= |m.slots| ==> AllHaveSlots(slots, peers, |peers|))
  {
    var c := TrackAll(cfg, m, peers, now);
    var start := Scan(m, NothingFound(|m.slots|));
    TrackFirstSlots(cfg, start, peers, |peers|, now, ids);
    TrackFirstOk(cfg, start, peers, |peers|, now);
    DropFirstStates(c.m, c.found, |c.found|);
    DropFirstOk(c.m, c.found, |c.found|);
    if |ids| <= |m.slots| {
      SlotsStay(c.m.slots, UpdateSpec(cfg, m, peers, now).slots, peers, |peers|);
    }
  }

  // ---------------------------------------------------------------- the monitor

  class HealthTable {
    const cfg: Config
    const discovery: PeerTable
    const safe: SafeStateManager
    const table: array<Slot>
    var initialized: bool
    var cb: bool
    ghost var log: seq<SafeEvent>

    ghost predicate Valid()
      reads this, discovery
    {
      table.Length == cfg.maxPeers && discovery.cfg == cfg && discovery.Valid()
    }

    ghost function Model(): Monitor
      reads this, table, safe
    {
      Monitor(table[..], cb, log, safe.Value(), safe.initialized)
    }

    // ceell_health_init, with `ok` the outcome of creating the mutex.
    constructor (cfg: Config, discovery: PeerTable, safe: SafeStateManager, ok: bool)
      requires discovery.Valid() && discovery.cfg == cfg
      ensures Valid() && fresh(table) && this.discovery == discovery && this.safe == safe && this.cfg == cfg
      ensures initialized == ok && !cb && log == []
      ensures table[..] == seq(cfg.maxPeers, _ => ZeroSlot)
    {
      this.cfg, this.discovery, this.safe := cfg, discovery, safe;
      table := new Slot[cfg.maxPeers](_ => ZeroSlot);
      initialized, cb, log := ok, false, [];
    }

    // ceell_health_register_cb with on_health_change, or with NULL.
    method RegisterCallback(given: bool)
      modifies this`cb
      ensures Model() == old(Model()).(cb := given)
    {
      cb := given;
    }

    // find_or_alloc: the index of the node's slot, or -1 when the table is full.
    method FindOrAlloc(id: Uint32) returns (idx: int)
      modifies table
      ensures match SlotFor(old(table[..]), id) case None => idx == -1 case Some(i) => idx == i
      ensures table[..] == Allocated(old(table[..]), id)
    {
      var freeSlot := -1;
      for i := 0 to table.Length
        invariant table[..] == old(table[..])
        invariant forall k :: 0 <= k < i ==> !(table[k].active && table[k].nodeId == id)
        invariant -1 <= freeSlot < i
        invariant freeSlot == -1 ==> forall k :: 0 <= k < i ==> table[k].active
        invariant freeSlot >= 0 ==> !table[freeSlot].active && forall k :: 0 <= k < freeSlot ==> table[k].active
      {
        if table[i].active && table[i].nodeId == id {
          return i;
        }
        if !table[i].active && freeSlot == -1 {
          freeSlot := i;
        }
      }
      if freeSlot >= 0 {
        table[freeSlot] := Slot(id, Healthy, 0, 0, true);
      }
      return freeSlot;
    }

    // The callback, when one is registered.
    method Report(nodeId: Uint32, oldState: HealthState, newState: HealthState)
      modifies this`log, safe
      ensures Model() == Notify(old(Model()), Change(nodeId, oldState, newState))
    {
      if cb {
        safe.OnHealthChange(nodeId, oldState, newState);
        log := log + [Change(nodeId, oldState, newState)];
      }
    }

    // Body of the loop over the discovered peers in ceell_health_update.
    method Refresh(p: Peer, now: int, peerFound: array<bool>)
      requires peerFound.Length == table.Length
      modifies this`log, table, safe, peerFound
      ensures Scan(Model(), peerFound[..]) == Track(cfg, old(Scan(Model(), peerFound[..])), p, now)
    {
      var idx := FindOrAlloc(p.nodeId);
      if idx == -1 {
        return;
      }
      peerFound[idx] := true;
      var oldState := table[idx].state;
      var newState := ComputeState(cfg, now, p.lastSeen);
      table[idx] := table[idx].(lastSeen := p.lastSeen);
      if newState != oldState {
        var missed := 0;
        if newState != Healthy {
          missed := Missed(cfg, now - p.lastSeen);
          if missed < 0 {
            missed := 0;
          }
        }
        table[idx] := table[idx].(state := newState, missedCount := missed);
        Report(table[idx].nodeId, oldState, newState);
      }
    }

    // Body of the loop that turns peers gone from discovery LOST.
    method Expire(i: nat, found: bool)
      requires i < table.Length
      modifies this`log, table, safe
      ensures Model() == Drop(old(Model()), i, found)
    {
      if table[i].active && !found {
        var oldState := table[i].state;
        if oldState != Lost {
          table[i] := table[i].(state := Lost, missedCount := -1);
          Report(table[i].nodeId, oldState, Lost);
        }
      }
    }

    // ceell_health_update
    method Update(now: int)
      requires Valid()
      modifies this`log, table, safe
      ensures Model() ==
        if initialized then UpdateSpec(cfg, old(Model()), discovery.Entries(), now) else old(Model())
    {
      hide Track, Drop;
      if !initialized {
        return;
      }
      var peers := discovery.GetPeers(cfg.maxPeers);
      assert peers == discovery.Entries();
      var peerFound := new bool[table.Length](_ => false);
      ghost var start := Scan(Model(), NothingFound(table.Length));
      assert peerFound[..] == start.found;
      for i := 0 to |peers|
        invariant Scan(Model(), peerFound[..]) == TrackFirst(cfg, start, peers, i, now)
      {
        Refresh(peers[i], now, peerFound);
      }
      ghost var c := TrackAll(cfg, old(Model()), peers, now);
      assert Scan(Model(), peerFound[..]) == c;
      for i := 0 to table.Length
        invariant peerFound[..] == c.found && Model() == DropFirst(c.m, c.found, i)
      {
        Expire(i, peerFound[i]);
      }
    }

    // ceell_health_get_state
    method GetState(id: Uint32) returns (state: HealthState)
      ensures state == GetStateSpec(table[..], id)
    {
      state := Lost;
      for i := 0 to table.Length
        invariant forall k :: 0 <= k < i ==> !(table[k].active && table[k].nodeId == id)
        invariant state == Lost
      {
        if table[i].active && table[i].nodeId == id {
          state := table[i].state;
          break;
        }
      }
    }
  }
}
