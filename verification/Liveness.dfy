// One node's peer liveness: announcements, the lifecycle loop (ceell/core/lifecycle.c),
// the two tables and the safe state, over whole runs.
module Liveness {
  import opened Common
  import opened SafeState
  import opened Discovery
  import opened HealthMonitor

  datatype NodeState = NodeState(peers: seq<Peer>, monitor: Monitor)

  // The critical sections of the node's threads, in any order. The receive thread reads
  // the clock inside its own; the lifecycle thread reads it before entering expiry and
  // before copying the peer table, so its time may be older than an entry it then finds.
  datatype Event =
    | Announce(msg: Announcement, t: int)
    | Expire(t: int)
    | Update(now: int)
    | External(why: int)

  function Initial(cfg: Config): NodeState {
    NodeState([], Monitor(seq(cfg.maxPeers, _ => ZeroSlot), true, [], InitialSafe, true))
  }

  function TriggerFromOutside(m: Monitor, why: int): Monitor {
    m.(log := m.log + [Trigger(why)], safe := if m.safeReady then TriggerSpec(m.safe, why) else m.safe)
  }

  function Apply(cfg: Config, s: NodeState, e: Event): NodeState {
    match e
    case Announce(msg, t) => s.(peers := AnnounceSpec(cfg, s.peers, msg, t))
    case Expire(t) => s.(peers := ExpireSpec(s.peers, t, cfg.timeout))
    case Update(now) => s.(monitor := UpdateSpec(cfg, s.monitor, s.peers, now))
    case External(why) => s.(monitor := TriggerFromOutside(s.monitor, why))
  }

  function Run(cfg: Config, events: seq<Event>): NodeState {
    if |events| == 0 then Initial(cfg)
    else Apply(cfg, Run(cfg, events[..|events| - 1]), events[|events| - 1])
  }

  // When each foreign node was last heard, from the announcements alone.
  function LastHeard(cfg: Config, events: seq<Event>): map<int, int> {
    if |events| == 0 then map[]
    else
      var h, e := LastHeard(cfg, events[..|events| - 1]), events[|events| - 1];
      if e.Announce? && cfg.self != Some(ToUint32(e.msg.nodeId)) then h[ToUint32(e.msg.nodeId) := e.t] else h
  }

  // The lifecycle thread's latest expiry time, 0 before the first.
  function LastExpiry(events: seq<Event>): int {
    if |events| == 0 then 0
    else
      var e := events[|events| - 1];
      if e.Expire? then e.t else LastExpiry(events[..|events| - 1])
  }

  // The latest clock reading of the lifecycle thread.
  function LifeTime(events: seq<Event>): int {
    if |events| == 0 then 0
    else
      match events[|events| - 1]
      case Expire(t) => t
      case Update(now) => now
      case _ => LifeTime(events[..|events| - 1])
  }

  // One clock: nothing happens before the lifecycle thread's last reading. An update
  // follows an expiry within 2^31 intervals, so the interval count fits an int.
  predicate Timely(cfg: Config, events: seq<Event>, e: Event) {
    match e
    case Announce(_, t) => LifeTime(events) <= t
    case Expire(t) => LifeTime(events) <= t
    case Update(now) =>
      LifeTime(events) <= now && now - LastExpiry(events) + cfg.timeout < 0x8000_0000 * cfg.interval
    case External(_) => true
  }

  predicate TimelyRun(cfg: Config, events: seq<Event>) {
    |events| == 0 ||
    (TimelyRun(cfg, events[..|events| - 1]) && Timely(cfg, events[..|events| - 1], events[|events| - 1]))
  }

  // What a query should answer at time `now`.
  function Expected(cfg: Config, heard: map<int, int>, now: int, id: Uint32): HealthState {
    if id in heard then Classify(cfg, now - heard[id]) else Lost
  }

  // ---------------------------------------------------------------- invariants of every run

  ghost predicate StateOk(cfg: Config, s: NodeState, heard: map<int, int>, expiry: int) {
    && |s.monitor.slots| == cfg.maxPeers && MonitorOk(s.monitor)
    && TableOk(cfg, s.peers)
    && SlotsWithin(s.monitor.slots, heard.Keys)
    && EntriesHeard(cfg, s.peers, heard, expiry)
  }

  // An entry carries the time its node was last heard, and was fresh at the last expiry.
  ghost predicate EntriesHeard(cfg: Config, peers: seq<Peer>, heard: map<int, int>, expiry: int) {
    forall p :: p in peers ==>
      p.nodeId in heard && p.lastSeen == heard[p.nodeId] && expiry - p.lastSeen <= cfg.timeout
  }

  ghost predicate InTable(peers: seq<Peer>, id: int) {
    exists p :: p in peers && p.nodeId == id
  }

  // A node that was heard but is not in the table was stale at the last expiry.
  ghost predicate AbsentStale(cfg: Config, peers: seq<Peer>, heard: map<int, int>, expiry: int) {
    forall id :: id in heard && !InTable(peers, id) ==> expiry - heard[id] > cfg.timeout
  }

  lemma ExpireEntries(cfg: Config, peers: seq<Peer>, heard: map<int, int>, expiry: int, t: int)
    requires EntriesHeard(cfg, peers, heard, expiry)
    ensures EntriesHeard(cfg, ExpireSpec(peers, t, cfg.timeout), heard, t)
  {
    forall p | p in ExpireSpec(peers, t, cfg.timeout)
      ensures p.nodeId in heard && p.lastSeen == heard[p.nodeId] && t - p.lastSeen <= cfg.timeout
    {
      ExpireMembership(peers, t, cfg.timeout, p);
    }
  }

  lemma ExpireAbsent(cfg: Config, peers: seq<Peer>, heard: map<int, int>, expiry: int, t: int)
    requires EntriesHeard(cfg, peers, heard, expiry) && AbsentStale(cfg, peers, heard, expiry) && expiry <= t
    ensures AbsentStale(cfg, ExpireSpec(peers, t, cfg.timeout), heard, t)
  {
    forall id | id in heard && !InTable(ExpireSpec(peers, t, cfg.timeout), id)
      ensures t - heard[id] > cfg.timeout
    {
      if InTable(peers, id) {
        var p :| p in peers && p.nodeId == id;
        ExpireMembership(peers, t, cfg.timeout, p);
      }
    }
  }

  lemma AnnounceEntries(cfg: Config, peers: seq<Peer>, heard: map<int, int>, expiry: int, msg: Announcement, t: int)
    requires EntriesHeard(cfg, peers, heard, expiry) && TableOk(cfg, peers) && expiry <= t
    requires cfg.self != Some(ToUint32(msg.nodeId))
    ensures EntriesHeard(cfg, AnnounceSpec(cfg, peers, msg, t), heard[ToUint32(msg.nodeId) := t], expiry)
  {
    var id := ToUint32(msg.nodeId);
    var after, i := AnnounceSpec(cfg, peers, msg, t), IndexOf(peers, id);
    forall p | p in after
      ensures p.nodeId in heard[id := t] && p.lastSeen == heard[id := t][p.nodeId] && expiry - p.lastSeen <= cfg.timeout
    {
      var k :| 0 <= k < |after| && after[k] == p;
      if k < |peers| && k != i {
        assert after[k] == peers[k] && peers[k] in peers && peers[k].nodeId != id;
      }
    }
  }

  // With room for every node ever heard, an announcement always finds or makes an entry.
  lemma AnnounceAbsent(cfg: Config, peers: seq<Peer>, heard: map<int, int>, expiry: int, msg: Announcement, t: int)
    requires EntriesHeard(cfg, peers, heard, expiry) && TableOk(cfg, peers) && AbsentStale(cfg, peers, heard, expiry)
    requires |heard[ToUint32(msg.nodeId) := t].Keys| <= cfg.maxPeers
    requires cfg.self != Some(ToUint32(msg.nodeId))
    ensures AbsentStale(cfg, AnnounceSpec(cfg, peers, msg, t), heard[ToUint32(msg.nodeId) := t], expiry)
  {
    hide AnnounceSpec, TableOk, EntriesHeard, ToUint32;
    var id := ToUint32(msg.nodeId);
    var after := AnnounceSpec(cfg, peers, msg, t);
    RoomForEntry(cfg, peers, heard, expiry, id, t);
    AnnounceAdds(cfg, peers, msg, t);
    forall other | other in heard[id := t] && !InTable(after, other)
      ensures expiry - heard[id := t][other] > cfg.timeout
    {
      assert other != id && !InTable(peers, other);
    }
  }

  // An announcement that finds or makes an entry adds its node to the table and takes
  // nobody away.
  lemma AnnounceAdds(cfg: Config, peers: seq<Peer>, msg: Announcement, t: int)
    requires cfg.self != Some(ToUint32(msg.nodeId))
    requires IndexOf(peers, ToUint32(msg.nodeId)) < |peers| || |peers| < cfg.maxPeers
    ensures InTable(AnnounceSpec(cfg, peers, msg, t), ToUint32(msg.nodeId))
    ensures forall other :: InTable(peers, other) ==> InTable(AnnounceSpec(cfg, peers, msg, t), other)
  {
    var after, i := AnnounceSpec(cfg, peers, msg, t), IndexOf(peers, ToUint32(msg.nodeId));
    assert after[i] in after;
    forall other | InTable(peers, other)
      ensures InTable(after, other)
    {
      var k :| 0 <= k < |peers| && peers[k].nodeId == other;
      assert after[k] in after && after[k].nodeId == other;
    }
  }

  // A table that holds every other node heard still has room for one more.
  lemma RoomForEntry(cfg: Config, peers: seq<Peer>, heard: map<int, int>, expiry: int, id: Uint32, t: int)
    requires EntriesHeard(cfg, peers, heard, expiry) && TableOk(cfg, peers)
    requires |heard[id := t].Keys| <= cfg.maxPeers
    ensures IndexOf(peers, id) < |peers| || |peers| < cfg.maxPeers
  {
    if IndexOf(peers, id) == |peers| {
      var xs: seq<int> := seq(|peers|, k requires 0 <= k < |peers| => peers[k].nodeId);
      forall k | 0 <= k < |peers|
        ensures peers[k].nodeId in heard
      {
        assert peers[k] in peers;
      }
      PigeonHole([id] + xs, heard[id := t].Keys);
    }
  }

  lemma {:induction false} LifeTimeBound(cfg: Config, events: seq<Event>)
    requires TimelyRun(cfg, events)
    ensures LastExpiry(events) <= LifeTime(events)
  {
    if |events| > 0 {
      LifeTimeBound(cfg, events[..|events| - 1]);
    }
  }

  // In every reachable state: distinct foreign ids within capacity in the peer table,
  // distinct ids in the health table, a log that replays to the health table and the
  // safe state, and entries that carry the time their node was last heard.
  lemma {:induction false} RunOk(cfg: Config, events: seq<Event>)
    requires TimelyRun(cfg, events)
    ensures StateOk(cfg, Run(cfg, events), LastHeard(cfg, events), LastExpiry(events))
  {
    if |events| == 0 {
      assert MonitorOk(Initial(cfg).monitor);
    } else {
      var front, e := events[..|events| - 1], events[|events| - 1];
      RunOk(cfg, front);
      LifeTimeBound(cfg, front);
      ApplyOk(cfg, front, e);
    }
  }

  lemma {:induction false} ApplyOk(cfg: Config, front: seq<Event>, e: Event)
    requires StateOk(cfg, Run(cfg, front), LastHeard(cfg, front), LastExpiry(front))
    requires Timely(cfg, front, e) && LastExpiry(front) <= LifeTime(front)
    ensures var events := front + [e];
      StateOk(cfg, Run(cfg, events), LastHeard(cfg, events), LastExpiry(events))
  {
    assert (front + [e])[..|front|] == front;
    var s, heard, expiry := Run(cfg, front), LastHeard(cfg, front), LastExpiry(front);
    match e
    case Announce(msg, t) =>
      AnnounceKeepsTable(cfg, s.peers, msg, t);
      if cfg.self != Some(ToUint32(msg.nodeId)) {
        AnnounceEntries(cfg, s.peers, heard, expiry, msg, t);
      }
    case Expire(t) =>
      ExpireKeepsTable(cfg, s.peers, 0, t, cfg.timeout);
      ExpireEntries(cfg, s.peers, heard, expiry, t);
    case Update(now) =>
      UpdateKeepsMonitor(cfg, s.monitor, s.peers, now);
      forall k | 0 <= k < |s.peers|
        ensures s.peers[k].nodeId in heard.Keys
      {
        assert s.peers[k] in s.peers;
      }
      UpdateSlots(cfg, s.monitor, s.peers, now, heard.Keys);
    case External(why) =>
      TriggerKeepsMonitor(s.monitor, why);
  }

  lemma TriggerKeepsMonitor(m: Monitor, why: int)
    requires MonitorOk(m)
    ensures MonitorOk(TriggerFromOutside(m, why))
  {
    var e := Trigger(why);
    ChainedExtend(m.log, e);
    ReplayExtend(m.log, e, 0);
    forall i | 0 <= i < |m.slots| && m.slots[i].active
      ensures m.slots[i].state == Replay(m.log + [e], m.slots[i].nodeId)
    {
      ReplayExtend(m.log, e, m.slots[i].nodeId);
    }
  }

  lemma {:induction false} HeardGrows(cfg: Config, events: seq<Event>)
    requires |events| > 0
    ensures LastHeard(cfg, events[..|events| - 1]).Keys <= LastHeard(cfg, events).Keys
    ensures |LastHeard(cfg, events[..|events| - 1]).Keys| <= |LastHeard(cfg, events).Keys|
  {
    CardinalityMonotone(LastHeard(cfg, events[..|events| - 1]).Keys, LastHeard(cfg, events).Keys);
  }

  lemma {:induction false} CardinalityMonotone(a: set<int>, b: set<int>)
    requires a <= b
    ensures |a| <= |b|
  {
    assert b == a + (b - a);
  }

  // With at most MAX_PEERS foreign nodes ever heard, a heard node missing from the
  // peer table was dropped by expiry, never for lack of room.
  lemma {:induction false} RunAbsentStale(cfg: Config, events: seq<Event>)
    requires TimelyRun(cfg, events) && |LastHeard(cfg, events).Keys| <= cfg.maxPeers
    ensures AbsentStale(cfg, Run(cfg, events).peers, LastHeard(cfg, events), LastExpiry(events))
  {
    if |events| > 0 {
      var front, e := events[..|events| - 1], events[|events| - 1];
      HeardGrows(cfg, events);
      RunAbsentStale(cfg, front);
      RunOk(cfg, front);
      LifeTimeBound(cfg, front);
      var s, heard, expiry := Run(cfg, front), LastHeard(cfg, front), LastExpiry(front);
      match e
      case Announce(msg, t) =>
        if cfg.self != Some(ToUint32(msg.nodeId)) {
          AnnounceAbsent(cfg, s.peers, heard, expiry, msg, t);
        }
      case Expire(t) =>
        ExpireAbsent(cfg, s.peers, heard, expiry, t);
      case _ =>
    }
  }

  // ---------------------------------------------------------------- main theorem

  function StateAfterUpdate(cfg: Config, events: seq<Event>, now: int, id: Uint32): HealthState {
    GetStateSpec(Run(cfg, events + [Update(now)]).monitor.slots, id)
  }

  // Without any bound on the number of nodes: after an update a node reads as its
  // classification when it has a table entry and a slot, and as LOST otherwise.
  lemma {:induction false} ReadingAfterUpdate(cfg: Config, events: seq<Event>, now: int, id: Uint32)
    requires TimelyRun(cfg, events) && Timely(cfg, events, Update(now))
    ensures var after := Run(cfg, events + [Update(now)]);
      StateAfterUpdate(cfg, events, now, id) ==
        if InTable(after.peers, id) && HasSlot(after.monitor.slots, id)
        then Expected(cfg, LastHeard(cfg, events), now, id) else Lost
  {
    assert (events + [Update(now)])[..|events|] == events;
    var s := Run(cfg, events);
    RunOk(cfg, events);
    UpdateStates(cfg, s.monitor, s.peers, now, id);
    var k := IndexOf(s.peers, id);
    if k < |s.peers| {
      assert s.peers[k] in s.peers && InTable(s.peers, id);
      ComputeIsClassify(cfg, now, s.peers[k].lastSeen);
    } else {
      assert !InTable(s.peers, id);
    }
  }

  // The two tables together answer "when was this node last heard": with at most
  // MAX_PEERS nodes ever heard, every query after an update gives the classification of
  // the node's silence, and LOST for a node never heard, whether the node is still in
  // discovery, was expired, or never had a slot.
  lemma {:induction false} TablesAgreeWithLastHeard(cfg: Config, events: seq<Event>, now: int, id: Uint32)
    requires TimelyRun(cfg, events) && Timely(cfg, events, Update(now))
    requires |LastHeard(cfg, events).Keys| <= cfg.maxPeers
    requires cfg.timeout + 1 >= 4 * cfg.interval
    ensures StateAfterUpdate(cfg, events, now, id) == Expected(cfg, LastHeard(cfg, events), now, id)
  {
    var s, heard := Run(cfg, events), LastHeard(cfg, events);
    assert (events + [Update(now)])[..|events|] == events;
    RunOk(cfg, events);
    RunAbsentStale(cfg, events);
    LifeTimeBound(cfg, events);
    ReadingAfterUpdate(cfg, events, now, id);
    if InTable(s.peers, id) {
      var k :| 0 <= k < |s.peers| && s.peers[k].nodeId == id;
      forall j | 0 <= j < |s.peers|
        ensures s.peers[j].nodeId in heard.Keys
      {
        assert s.peers[j] in s.peers;
      }
      UpdateSlots(cfg, s.monitor, s.peers, now, heard.Keys);
      assert HasSlot(Run(cfg, events + [Update(now)]).monitor.slots, s.peers[k].nodeId);
    }
  }

  // A run in which at most n foreign nodes were heard is answered as expected.
  ghost predicate AgreesOn(cfg: Config, n: nat, events: seq<Event>, now: int, id: Uint32) {
    TimelyRun(cfg, events) && Timely(cfg, events, Update(now)) && |LastHeard(cfg, events).Keys| <= n ==>
    StateAfterUpdate(cfg, events, now, id) == Expected(cfg, LastHeard(cfg, events), now, id)
  }

  // The tables agree with the last-heard map on all runs with up to n nodes exactly when
  // n is within MAX_PEERS and the timeout is at least 4 intervals less one millisecond.
  lemma {:induction false} AgreementExactly(cfg: Config, n: nat)
    requires 1 <= n < 0xFFFF_FFFF && cfg.maxPeers < 0xFFFF_FFFF
    ensures (forall events, now, id :: AgreesOn(cfg, n, events, now, id)) <==>
      n <= cfg.maxPeers && cfg.timeout + 1 >= 4 * cfg.interval
  {
    if cfg.timeout + 1 < 4 * cfg.interval {
      var events, now, id := ShortTimeoutDisagrees(cfg, n);
      assert !AgreesOn(cfg, n, events, now, id);
    } else if n > cfg.maxPeers {
      var events, id := OneNodeTooMany(cfg, n);
      assert !AgreesOn(cfg, n, events, 0, id);
    } else {
      forall events, now, id
        ensures AgreesOn(cfg, n, events, now, id)
      {
        if TimelyRun(cfg, events) && Timely(cfg, events, Update(now)) && |LastHeard(cfg, events).Keys| <= n {
          TablesAgreeWithLastHeard(cfg, events, now, id);
        }
      }
    }
  }

  // The k-th id other than the node's own.
  function ForeignId(cfg: Config, k: nat): int {
    if cfg.self.Some? && cfg.self.value <= k then k + 1 else k
  }

  function Hello(id: int): Announcement {
    Announcement(id, None, None, None, None)
  }

  // k different nodes announce themselves at time 0.
  function Crowd(cfg: Config, k: nat): seq<Event> {
    if k == 0 then []
    else Crowd(cfg, k - 1) + [Announce(Hello(ForeignId(cfg, k - 1)), 0)]
  }

  lemma {:induction false} CrowdLength(cfg: Config, k: nat)
    ensures |Crowd(cfg, k)| == k
    ensures k > 0 ==> Crowd(cfg, k)[..k - 1] == Crowd(cfg, k - 1)
    ensures TimelyRun(cfg, Crowd(cfg, k)) && LifeTime(Crowd(cfg, k)) == LastExpiry(Crowd(cfg, k)) == 0
  {
    if k > 0 {
      CrowdLength(cfg, k - 1);
      assert Crowd(cfg, k)[..k - 1] == Crowd(cfg, k - 1);
    }
  }

  ghost predicate FirstForeign(cfg: Config, peers: seq<Peer>, k: nat) {
    |peers| == Min(k, cfg.maxPeers) && forall i :: 0 <= i < |peers| ==> peers[i].nodeId == ForeignId(cfg, i)
  }

  lemma CrowdStep(cfg: Config, peers: seq<Peer>, k: nat)
    requires FirstForeign(cfg, peers, k) && k < 0xFFFF_FFFF
    ensures FirstForeign(cfg, AnnounceSpec(cfg, peers, Hello(ForeignId(cfg, k)), 0), k + 1)
  {
    var id := ForeignId(cfg, k);
    assert ToUint32(id) == id && cfg.self != Some(id);
    assert IndexOf(peers, id) == |peers|;
  }

  lemma {:induction false} CrowdFillsTable(cfg: Config, k: nat)
    requires k <= 0xFFFF_FFFF
    ensures FirstForeign(cfg, Run(cfg, Crowd(cfg, k)).peers, k)
  {
    hide AnnounceSpec, FirstForeign;
    CrowdLength(cfg, k);
    if k == 0 {
      NobodyYet(cfg);
    } else {
      CrowdFillsTable(cfg, k - 1);
      CrowdStep(cfg, Run(cfg, Crowd(cfg, k - 1)).peers, k - 1);
    }
  }

  lemma NobodyYet(cfg: Config)
    ensures FirstForeign(cfg, Initial(cfg).peers, 0)
  {
  }

  // As many nodes as there are up to the k-th foreign one were heard, at time 0.
  ghost predicate FirstHeard(cfg: Config, heard: map<int, int>, k: nat) {
    && (forall id :: id in heard ==> heard[id] == 0 && id < ForeignId(cfg, k))
    && (k > 0 ==> ForeignId(cfg, k - 1) in heard)
    && |heard.Keys| == k
  }

  lemma {:induction false} CrowdHeard(cfg: Config, k: nat)
    requires k <= 0xFFFF_FFFF
    ensures FirstHeard(cfg, LastHeard(cfg, Crowd(cfg, k)), k)
  {
    hide FirstHeard, ForeignId, ToUint32;
    CrowdLength(cfg, k);
    if k == 0 {
      NobodyHeard(cfg);
    } else {
      CrowdHeard(cfg, k - 1);
      OneMoreHeard(cfg, LastHeard(cfg, Crowd(cfg, k - 1)), k);
      assert Crowd(cfg, k)[k - 1] == Announce(Hello(ForeignId(cfg, k - 1)), 0);
    }
  }

  lemma NobodyHeard(cfg: Config)
    ensures FirstHeard(cfg, map[], 0)
  {
  }

  lemma OneMoreHeard(cfg: Config, heard: map<int, int>, k: nat)
    requires 0 < k <= 0xFFFF_FFFF && FirstHeard(cfg, heard, k - 1)
    ensures var id := ForeignId(cfg, k - 1);
      ToUint32(id) == id && cfg.self != Some(id) && FirstHeard(cfg, heard[id := 0], k)
  {
    var id := ForeignId(cfg, k - 1);
    assert id !in heard;
    assert heard[id := 0].Keys == heard.Keys + {id};
  }

  // One node more than the table holds: the last to announce itself is HEALTHY but reads LOST.
  lemma {:induction false} OneNodeTooMany(cfg: Config, n: nat) returns (events: seq<Event>, id: Uint32)
    requires cfg.maxPeers < n && cfg.maxPeers < 0xFFFF_FFFF
    ensures !AgreesOn(cfg, n, events, 0, id)
  {
    var k := cfg.maxPeers + 1;
    events, id := Crowd(cfg, k), ForeignId(cfg, k - 1);
    CrowdLength(cfg, k);
    CrowdFillsTable(cfg, k);
    CrowdHeard(cfg, k);
    ReadingAfterUpdate(cfg, events, 0, id);
    assert (events + [Update(0)])[..|events|] == events;
    assert !InTable(Run(cfg, events).peers, id);
  }

  // With a shorter timeout, a peer just expired reads LOST while its silence is still DEGRADED.
  lemma {:induction false} ShortTimeoutDisagrees(cfg: Config, n: nat) returns (events: seq<Event>, now: int, id: Uint32)
    requires cfg.timeout + 1 < 4 * cfg.interval && n >= 1
    ensures !AgreesOn(cfg, n, events, now, id)
  {
    id, now := ForeignId(cfg, 0), cfg.timeout + 1;
    var first := Crowd(cfg, 1);
    events := first + [Expire(now)];
    assert events[..|first|] == first && (events + [Update(now)])[..|events|] == events;
    CrowdLength(cfg, 1);
    CrowdHeard(cfg, 1);
    RunOk(cfg, first);
    ReadingAfterUpdate(cfg, events, now, id);
    var before, after := Run(cfg, first).peers, Run(cfg, events).peers;
    forall p | p in after
      ensures p.nodeId != id
    {
      ExpireMembership(before, now, cfg.timeout, p);
    }
  }

  // Without the bound on the number of nodes: a reading is right exactly when the node
  // is tracked in both tables or would read LOST anyway.
  lemma {:induction false} ReadingRightIff(cfg: Config, events: seq<Event>, now: int, id: Uint32)
    requires TimelyRun(cfg, events) && Timely(cfg, events, Update(now))
    ensures var after := Run(cfg, events + [Update(now)]);
      var expected := Expected(cfg, LastHeard(cfg, events), now, id);
      StateAfterUpdate(cfg, events, now, id) == expected <==>
        (InTable(after.peers, id) && HasSlot(after.monitor.slots, id)) || expected == Lost
  {
    ReadingAfterUpdate(cfg, events, now, id);
  }

  // ---------------------------------------------------------------- slots over whole runs

  lemma {:induction false} RunSlotsPersist(cfg: Config, events: seq<Event>, more: seq<Event>)
    requires TimelyRun(cfg, events + more)
    ensures SlotsPersist(Run(cfg, events).monitor.slots, Run(cfg, events + more).monitor.slots)
  {
    if |more| == 0 {
      assert events + more == events;
    } else {
      var n := |more| - 1;
      assert (events + more)[..|events| + n] == events + more[..n];
      RunSlotsPersist(cfg, events, more[..n]);
      StepSlotsPersist(cfg, events + more);
    }
  }

  lemma {:induction false} StepSlotsPersist(cfg: Config, events: seq<Event>)
    requires TimelyRun(cfg, events) && |events| > 0
    ensures SlotsPersist(Run(cfg, events[..|events| - 1]).monitor.slots, Run(cfg, events).monitor.slots)
  {
    var front, e := events[..|events| - 1], events[|events| - 1];
    RunOk(cfg, front);
    if e.Update? {
      UpdateKeepsMonitor(cfg, Run(cfg, front).monitor, Run(cfg, front).peers, e.now);
    }
  }

  // Slots are never given back: once all of them belong to other nodes, a node reads
  // LOST in every continuation of the run, however often it announces itself.
  lemma {:induction false} StarvedForever(cfg: Config, events: seq<Event>, more: seq<Event>, id: Uint32)
    requires TimelyRun(cfg, events + more)
    requires forall i :: 0 <= i < cfg.maxPeers ==>
      i < |Run(cfg, events).monitor.slots| &&
      Run(cfg, events).monitor.slots[i].active && Run(cfg, events).monitor.slots[i].nodeId != id
    ensures GetStateSpec(Run(cfg, events + more).monitor.slots, id) == Lost
  {
    RunSlotsPersist(cfg, events, more);
    RunOk(cfg, events + more);
    var before, slots := Run(cfg, events).monitor.slots, Run(cfg, events + more).monitor.slots;
    assert forall k :: 0 <= k < |slots| ==> before[k].active && slots[k].nodeId == before[k].nodeId != id;
  }

  // ---------------------------------------------------------------- safe state over whole runs

  ghost predicate LostButSafeOff(m: Monitor, p: Uint32) {
    HasSlot(m.slots, p) && GetStateSpec(m.slots, p) == Lost && !m.safe.active
  }

  // A run reaches a tracked LOST peer with the safe state off exactly when there is room
  // for two peers.
  lemma {:induction false} SafeOffReachableExactly(cfg: Config)
    ensures (exists events, p: Uint32 :: TimelyRun(cfg, events) && LostButSafeOff(Run(cfg, events).monitor, p))
      <==> cfg.maxPeers >= 2
  {
    hide TimelyRun, Run;
    if cfg.maxPeers >= 2 {
      var events, p := OneLostOneBack(cfg);
      assert TimelyRun(cfg, events) && LostButSafeOff(Run(cfg, events).monitor, p);
    } else {
      forall events, p: Uint32 | TimelyRun(cfg, events)
        ensures !LostButSafeOff(Run(cfg, events).monitor, p)
      {
        RunOk(cfg, events);
        if HasSlot(Run(cfg, events).monitor.slots, p) && GetStateSpec(Run(cfg, events).monitor.slots, p) == Lost {
          SingleNodeLostIsSafe(Run(cfg, events).monitor.log, p);
        }
      }
    }
  }

  // Two peers are heard and tracked, both fall silent, and one of them comes back.
  lemma {:induction false} OneLostOneBack(cfg: Config) returns (events: seq<Event>, p: Uint32)
    requires cfg.maxPeers >= 2
    ensures TimelyRun(cfg, events) && LostButSafeOff(Run(cfg, events).monitor, p)
  {
    hide MonitorOk, AnnounceSpec, UpdateSpec, HasSlot, AllLost, LostButSafeOff;
    var a, b, t := ForeignId(cfg, 0), ForeignId(cfg, 1), cfg.timeout + 1;
    var front := BothLost(cfg);
    var heard := front + [Announce(Hello(b), t)];
    events, p := heard + [Update(t)], a;
    assert heard[..|front|] == front && events[..|heard|] == heard;
    var s, back := Run(cfg, front), NewPeer(Hello(b), t);
    OnlyEntry(cfg, b, t);
    OneBack(cfg, s.monitor, back, t, a);
  }

  lemma OnlyEntry(cfg: Config, id: Uint32, t: int)
    requires cfg.self != Some(id)
    ensures AnnounceSpec(cfg, [], Hello(id), t) == [NewPeer(Hello(id), t)]
  {
  }

  // One of two LOST peers comes back.
  lemma OneBack(cfg: Config, m: Monitor, back: Peer, now: int, other: Uint32)
    requires MonitorOk(m) && AllLost(m.slots) && now == back.lastSeen && other != back.nodeId
    requires HasSlot(m.slots, other) && HasSlot(m.slots, back.nodeId)
    ensures LostButSafeOff(UpdateSpec(cfg, m, [back], now), other)
  {
    hide MonitorOk, UpdateSpec, AllLost;
    RecoveryClears(cfg, m, back, now);
    UpdateStates(cfg, m, [back], now, other);
    UpdateKeepsMonitor(cfg, m, [back], now);
    PersistKeepsSlot(m.slots, UpdateSpec(cfg, m, [back], now).slots, other);
  }

  ghost predicate AllLost(slots: seq<Slot>) {
    forall i :: 0 <= i < |slots| && slots[i].active ==> slots[i].state == Lost
  }

  lemma {:induction false} BothLost(cfg: Config) returns (events: seq<Event>)
    requires cfg.maxPeers >= 2
    ensures TimelyRun(cfg, events) && LifeTime(events) == LastExpiry(events) == cfg.timeout + 1
    ensures var s := Run(cfg, events);
      && s.peers == [] && MonitorOk(s.monitor) && AllLost(s.monitor.slots)
      && HasSlot(s.monitor.slots, ForeignId(cfg, 0)) && HasSlot(s.monitor.slots, ForeignId(cfg, 1))
  {
    var t := cfg.timeout + 1;
    var e1 := BothTracked(cfg);
    var e2 := e1 + [Expire(t)];
    events := e2 + [Update(t)];
    assert e2[..|e1|] == e1 && events[..|e2|] == e2;
    var s := Run(cfg, e1);
    AllExpire(s.peers, t, cfg.timeout);
    hide Run, MonitorOk, UpdateSpec;
    assert Run(cfg, events).monitor == UpdateSpec(cfg, s.monitor, [], t);
    SilenceLoses(cfg, s.monitor, t);
    UpdateKeepsMonitor(cfg, s.monitor, [], t);
    var after := UpdateSpec(cfg, s.monitor, [], t).slots;
    PersistKeepsSlot(s.monitor.slots, after, ForeignId(cfg, 0));
    PersistKeepsSlot(s.monitor.slots, after, ForeignId(cfg, 1));
  }

  lemma AllExpire(peers: seq<Peer>, t: int, timeout: int)
    requires forall p :: p in peers ==> t - p.lastSeen > timeout
    ensures ExpireSpec(peers, t, timeout) == []
  {
    var kept := ExpireSpec(peers, t, timeout);
    if |kept| > 0 {
      ExpireMembership(peers, t, timeout, kept[0]);
    }
  }

  lemma {:induction false} BothTracked(cfg: Config) returns (events: seq<Event>)
    requires cfg.maxPeers >= 2
    ensures TimelyRun(cfg, events) && LifeTime(events) == LastExpiry(events) == 0
    ensures var s := Run(cfg, events);
      && MonitorOk(s.monitor)
      && HasSlot(s.monitor.slots, ForeignId(cfg, 0)) && HasSlot(s.monitor.slots, ForeignId(cfg, 1))
      && forall p :: p in s.peers ==> p.lastSeen == 0
  {
    var crowd := Crowd(cfg, 2);
    events := crowd + [Update(0)];
    assert events[..|crowd|] == crowd;
    CrowdLength(cfg, 2);
    var s, ids := Run(cfg, crowd), LastHeard(cfg, crowd).Keys;
    assert Run(cfg, events) == s.(monitor := UpdateSpec(cfg, s.monitor, s.peers, 0));
    hide Run, Crowd, LastHeard, MonitorOk, UpdateSpec, HasSlot;
    RunOk(cfg, crowd);
    CrowdOfTwo(cfg);
    UpdateKeepsMonitor(cfg, s.monitor, s.peers, 0);
    UpdateSlots(cfg, s.monitor, s.peers, 0, ids);
    var slots := UpdateSpec(cfg, s.monitor, s.peers, 0).slots;
    assert HasSlot(slots, s.peers[0].nodeId) && HasSlot(slots, s.peers[1].nodeId);
  }

  lemma CrowdOfTwo(cfg: Config)
    requires cfg.maxPeers >= 2
    ensures var peers, heard := Run(cfg, Crowd(cfg, 2)).peers, LastHeard(cfg, Crowd(cfg, 2));
      && |peers| == |heard.Keys| == 2
      && peers[0].nodeId == ForeignId(cfg, 0) && peers[1].nodeId == ForeignId(cfg, 1)
      && forall p :: p in peers ==> p.nodeId in heard.Keys && p.lastSeen == 0
  {
    hide Run, Crowd, LastHeard;
    CrowdLength(cfg, 2);
    CrowdFillsTable(cfg, 2);
    CrowdHeard(cfg, 2);
    RunOk(cfg, Crowd(cfg, 2));
  }

  // An update that finds nobody leaves every tracked peer LOST.
  lemma SilenceLoses(cfg: Config, m: Monitor, now: int)
    ensures AllLost(UpdateSpec(cfg, m, [], now).slots)
  {
    DropFirstStates(m, NothingFound(|m.slots|), |m.slots|);
  }

  lemma {:induction false} DropsNothing(m: Monitor, found: seq<bool>, n: nat)
    requires n <= |m.slots| == |found|
    requires forall i :: 0 <= i < |found| && m.slots[i].active && !found[i] ==> m.slots[i].state == Lost
    ensures DropFirst(m, found, n) == m
  {
    if n > 0 {
      DropsNothing(m, found, n - 1);
    }
  }

  // With all tracked peers LOST, one that is heard again clears the safe state.
  lemma RecoveryClears(cfg: Config, m: Monitor, p: Peer, now: int)
    requires MonitorOk(m) && AllLost(m.slots) && HasSlot(m.slots, p.nodeId) && now == p.lastSeen
    ensures !UpdateSpec(cfg, m, [p], now).safe.active
  {
    var start := Scan(m, NothingFound(|m.slots|));
    assert TrackFirst(cfg, start, [p], 0, now) == start;
    var c := Track(cfg, start, p, now);
    assert TrackAll(cfg, m, [p], now) == c;
    var i := IndexOfActive(m.slots, p.nodeId);
    assert SlotFor(m.slots, p.nodeId) == Some(i) && m.slots[i].state == Lost;
    DropsNothing(c.m, c.found, |c.found|);
  }

  // ---------------------------------------------------------------- the node

  class Node {
    const cfg: Config
    const discovery: PeerTable
    const health: HealthTable
    const safe: SafeStateManager

    ghost predicate Valid()
      reads this, discovery, health, health.discovery
    {
      && health.Valid() && health.cfg == cfg && health.discovery == discovery && health.safe == safe
      && health.initialized
    }

    ghost function State(): NodeState
      requires Valid()
      reads this, discovery, discovery.peers, health, health.discovery, health.table, health.safe
    {
      NodeState(discovery.Entries(), health.Model())
    }

    // The start-up order of main, all initialisations succeeding.
    constructor (cfg: Config)
      ensures Valid() && this.cfg == cfg && State() == Initial(cfg)
      ensures fresh(discovery) && fresh(discovery.peers) && fresh(health) && fresh(health.table) && fresh(safe)
    {
      this.cfg := cfg;
      var d := new PeerTable(cfg);
      var s := new SafeStateManager(true);
      var h := new HealthTable(cfg, d, s, true);
      h.RegisterCallback(true);
      discovery, safe, health := d, s, h;
    }

    method Announced(msg: Announcement, t: int)
      requires Valid()
      modifies discovery, discovery.peers
      ensures Valid() && State() == Apply(cfg, old(State()), Announce(msg, t))
    {
      discovery.UpdatePeer(msg, t);
    }

    // One turn of the lifecycle loop: expiry, then the health update, each with its own
    // clock reading.
    method Tick(t: int, now: int) returns (expired: nat)
      requires Valid()
      modifies discovery, discovery.peers, health, health.table, safe
      ensures Valid() && State() == Apply(cfg, Apply(cfg, old(State()), Expire(t)), Update(now))
      ensures expired == |old(State()).peers| - |State().peers|
    {
      expired := discovery.ExpirePeers(t);
      health.Update(now);
    }
  }
}
