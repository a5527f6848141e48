// The peer table of ceell/network/discovery.c: announcements update it in place,
// expiry compacts it by moving the last entry into the freed position.
module Discovery {
  import opened Common

  // `self` is the node's own id, when its identity is set. MAX_PEERS, the
  // announcement interval and the peer timeout are parameters of the build.
  datatype Options = Options(self: Option<Uint32>, maxPeers: nat, interval: int, timeout: int)

  // MAX_PEERS is an array length, so positive; the two durations are C ints, in milliseconds.
  type Config = c: Options |
      0 < c.maxPeers && 0 < c.interval < 0x8000_0000 && 0 < c.timeout < 0x8000_0000
    witness Options(None, 8, 1000, 5000)

  // A decoded announcement; the text fields are absent when the JSON lacked them.
  datatype Announcement = Announcement(
    nodeId: int,
    role: Option<string>,
    name: Option<string>,
    ip: Option<string>,
    services: Option<string>)

  datatype Peer = Peer(nodeId: Uint32, role: string, name: string, ip: string, services: string, lastSeen: int)

  const ROLE_LEN := 31
  const NAME_LEN := 63
  const IP_LEN := 15
  const SERVICES_LEN := 127

  function Field(text: Option<string>, n: nat): string {
    if text.Some? then Truncate(text.value, n) else ""
  }

  function NewPeer(msg: Announcement, now: int): Peer {
    Peer(ToUint32(msg.nodeId), Field(msg.role, ROLE_LEN), Field(msg.name, NAME_LEN),
         Field(msg.ip, IP_LEN), Field(msg.services, SERVICES_LEN), now)
  }

  function RefreshedPeer(p: Peer, msg: Announcement, now: int): Peer {
    p.(lastSeen := now,
       services := if msg.services.Some? then Truncate(msg.services.value, SERVICES_LEN) else p.services)
  }

  // Position of the first entry for a node, |peers| when there is none.
  function IndexOf(peers: seq<Peer>, id: Uint32): (i: nat)
    ensures i <= |peers|
    ensures i < |peers| ==> peers[i].nodeId == id
    ensures forall k :: 0 <= k < i ==> peers[k].nodeId != id
  {
    if |peers| == 0 || peers[0].nodeId == id then 0
    else 1 + IndexOf(peers[1..], id)
  }

  function AnnounceSpec(cfg: Config, peers: seq<Peer>, msg: Announcement, now: int): seq<Peer> {
    var id := ToUint32(msg.nodeId);
    var i := IndexOf(peers, id);
    if cfg.self == Some(id) then peers
    else if i < |peers| then peers[i := RefreshedPeer(peers[i], msg, now)]
    else if |peers| < cfg.maxPeers then peers + [NewPeer(msg, now)]
    else peers
  }

  predicate Stale(p: Peer, now: int, timeout: int) {
    now - p.lastSeen > timeout
  }

  // Expiry from position i on: a stale entry is overwritten with the last one and
  // the same position is looked at again.
  function ExpireFrom(peers: seq<Peer>, i: nat, now: int, timeout: int): (kept: seq<Peer>)
    requires i <= |peers|
    ensures |kept| <= |peers|
    decreases |peers| - i
  {
    if i == |peers| then peers
    else if Stale(peers[i], now, timeout) then
      var last := |peers| - 1;
      ExpireFrom(peers[i := peers[last]][..last], i, now, timeout)
    else ExpireFrom(peers, i + 1, now, timeout)
  }

  function ExpireSpec(peers: seq<Peer>, now: int, timeout: int): seq<Peer> {
    ExpireFrom(peers, 0, now, timeout)
  }

  // The entries that are not stale, in order: what expiry has to keep.
  function Fresh(peers: seq<Peer>, now: int, timeout: int): seq<Peer> {
    if |peers| == 0 then []
    else (if Stale(peers[0], now, timeout) then [] else [peers[0]]) + Fresh(peers[1..], now, timeout)
  }

  // Distinct ids, never the node's own, within capacity.
  ghost predicate TableOk(cfg: Config, peers: seq<Peer>) {
    && |peers| <= cfg.maxPeers
    && Distinct(peers)
    && (forall k :: 0 <= k < |peers| ==> cfg.self != Some(peers[k].nodeId))
  }

  ghost predicate Distinct(peers: seq<Peer>) {
    forall j, k :: 0 <= j < k < |peers| ==> peers[j].nodeId != peers[k].nodeId
  }

  // ---------------------------------------------------------------- properties

  lemma {:induction false} FreshConcat(a: seq<Peer>, b: seq<Peer>, now: int, timeout: int)
    ensures Fresh(a + b, now, timeout) == Fresh(a, now, timeout) + Fresh(b, now, timeout)
  {
    if |a| == 0 {
      assert a + b == b;
    } else {
      assert (a + b)[1..] == a[1..] + b;
      FreshConcat(a[1..], b, now, timeout);
    }
  }

  // Swap-with-last expiry keeps exactly the fresh entries as a multiset, none
  // skipped and none kept by mistake, whatever the order of the table.
  lemma {:induction false} ExpireKeepsFresh(peers: seq<Peer>, now: int, timeout: int)
    ensures multiset(ExpireSpec(peers, now, timeout)) == multiset(Fresh(peers, now, timeout))
  {
    ExpireFromKeepsFresh(peers, 0, now, timeout);
    assert Outlook(peers, 0, now, timeout) == Fresh(peers, now, timeout) by {
      assert peers[..0] == [] && peers[0..] == peers;
    }
  }

  // The part already scanned, and what has to survive of the rest.
  ghost function Outlook(peers: seq<Peer>, i: nat, now: int, timeout: int): seq<Peer>
    requires i <= |peers|
  {
    peers[..i] + Fresh(peers[i..], now, timeout)
  }

  lemma {:induction false} ExpireFromKeepsFresh(peers: seq<Peer>, i: nat, now: int, timeout: int)
    requires i <= |peers|
    ensures multiset(ExpireFrom(peers, i, now, timeout)) == multiset(Outlook(peers, i, now, timeout))
    decreases |peers| - i
  {
    if i == |peers| {
      assert Outlook(peers, i, now, timeout) == peers;
    } else if Stale(peers[i], now, timeout) {
      ExpireFromKeepsFresh(peers[i := peers[|peers| - 1]][..|peers| - 1], i, now, timeout);
      SwapKeepsOutlook(peers, i, now, timeout);
    } else {
      ExpireFromKeepsFresh(peers, i + 1, now, timeout);
      AdvanceKeepsOutlook(peers, i, now, timeout);
    }
  }

  lemma {:induction false} AdvanceKeepsOutlook(peers: seq<Peer>, i: nat, now: int, timeout: int)
    requires i < |peers| && !Stale(peers[i], now, timeout)
    ensures Outlook(peers, i + 1, now, timeout) == Outlook(peers, i, now, timeout)
  {
    assert peers[..i + 1] == peers[..i] + [peers[i]];
    assert peers[i..][1..] == peers[i + 1..];
  }

  // Replacing a stale entry by the last one loses no fresh entry.
  lemma {:induction false} SwapKeepsOutlook(peers: seq<Peer>, i: nat, now: int, timeout: int)
    requires i < |peers| && Stale(peers[i], now, timeout)
    ensures multiset(Outlook(peers[i := peers[|peers| - 1]][..|peers| - 1], i, now, timeout))
         == multiset(Outlook(peers, i, now, timeout))
  {
    var last := |peers| - 1;
    var next := peers[i := peers[last]][..last];
    assert next[..i] == peers[..i];
    assert peers[i..][1..] == peers[i + 1..];
    if i < last {
      var middle := peers[i + 1..last];
      assert next[i..] == [peers[last]] + middle;
      assert peers[i + 1..] == middle + [peers[last]];
      FreshConcat([peers[last]], middle, now, timeout);
      FreshConcat(middle, [peers[last]], now, timeout);
    } else {
      assert next[i..] == [] && peers[i + 1..] == [];
    }
  }

  // An entry survives expiry exactly when it was present and fresh.
  lemma {:induction false} ExpireMembership(peers: seq<Peer>, now: int, timeout: int, p: Peer)
    ensures p in ExpireSpec(peers, now, timeout) <==> p in peers && !Stale(p, now, timeout)
  {
    ExpireKeepsFresh(peers, now, timeout);
    FreshMembership(peers, now, timeout, p);
    var kept, live := ExpireSpec(peers, now, timeout), Fresh(peers, now, timeout);
    assert p in kept <==> p in multiset(kept);
    assert p in live <==> p in multiset(live);
  }

  lemma {:induction false} FreshMembership(peers: seq<Peer>, now: int, timeout: int, p: Peer)
    ensures p in Fresh(peers, now, timeout) <==> p in peers && !Stale(p, now, timeout)
  {
    if |peers| > 0 {
      FreshMembership(peers[1..], now, timeout, p);
      assert p in peers <==> p == peers[0] || p in peers[1..];
    }
  }

  // Expiry creates no entry and repeats none.
  lemma {:induction false} ExpireKeepsTable(cfg: Config, peers: seq<Peer>, i: nat, now: int, timeout: int)
    requires i <= |peers| && TableOk(cfg, peers)
    ensures TableOk(cfg, ExpireFrom(peers, i, now, timeout))
    decreases |peers| - i
  {
    if i < |peers| {
      if Stale(peers[i], now, timeout) {
        var last := |peers| - 1;
        ExpireKeepsTable(cfg, peers[i := peers[last]][..last], i, now, timeout);
      } else {
        ExpireKeepsTable(cfg, peers, i + 1, now, timeout);
      }
    }
  }

  // An announcement keeps the table well formed, whatever it carries.
  lemma AnnounceKeepsTable(cfg: Config, peers: seq<Peer>, msg: Announcement, now: int)
    requires TableOk(cfg, peers)
    ensures TableOk(cfg, AnnounceSpec(cfg, peers, msg, now))
  {
    var after := AnnounceSpec(cfg, peers, msg, now);
    forall j, k | 0 <= j < k < |after|
      ensures after[j].nodeId != after[k].nodeId
    {
      if k < |peers| {
        assert peers[j].nodeId != peers[k].nodeId;
      }
    }
  }

  ghost predicate FieldHolds(text: Option<string>, n: nat, held: string) {
    match text
    case None => held == ""
    case Some(t) => Holds(t, n, held)
  }

  // What an announcement does to the whole table. The node's own is ignored, and so is a new
  // node's when the table is full. A known node's entry gets the time, and the services when
  // there are any, and stays as it was otherwise. A new one gets an entry at the end with up
  // to 31 characters of role, 63 of name, 15 of address and 127 of services. No other entry
  // is touched.
  lemma {:induction false} AnnounceEffect(cfg: Config, peers: seq<Peer>, msg: Announcement, now: int)
    ensures var after, id := AnnounceSpec(cfg, peers, msg, now), ToUint32(msg.nodeId); var i := IndexOf(peers, id);
      if cfg.self == Some(id) then after == peers
      else if i < |peers| then
        && |after| == |peers| && (forall k :: 0 <= k < |peers| && k != i ==> after[k] == peers[k])
        && after[i].nodeId == id && after[i].lastSeen == now
        && after[i].role == peers[i].role && after[i].name == peers[i].name && after[i].ip == peers[i].ip
        && (if msg.services.Some? then Holds(msg.services.value, 127, after[i].services)
            else after[i].services == peers[i].services)
      else if |peers| >= cfg.maxPeers then after == peers
      else
        && |after| == |peers| + 1 && after[..|peers|] == peers
        && var p := after[|peers|];
           && p.nodeId == id && p.lastSeen == now
           && FieldHolds(msg.role, 31, p.role) && FieldHolds(msg.name, 63, p.name)
           && FieldHolds(msg.ip, 15, p.ip) && FieldHolds(msg.services, 127, p.services)
  {
  }

  // ---------------------------------------------------------------- the table

  class PeerTable {
    const cfg: Config
    const peers: array<Peer>
    var count: nat

    ghost predicate Valid()
      reads this
    {
      peers.Length == cfg.maxPeers && count <= peers.Length
    }

    // The entries in use.
    ghost function Entries(): seq<Peer>
      reads this, peers
      requires Valid()
    {
      peers[..count]
    }

    constructor (cfg: Config)
      ensures Valid() && fresh(peers) && this.cfg == cfg && Entries() == []
    {
      this.cfg := cfg;
      peers := new Peer[cfg.maxPeers];
      count := 0;
    }

    // update_peer
    method UpdatePeer(msg: Announcement, now: int)
      requires Valid()
      modifies this, peers
      ensures Valid() && Entries() == AnnounceSpec(cfg, old(Entries()), msg, now)
    {
      var id := ToUint32(msg.nodeId);
      if cfg.self == Some(id) {
        return;
      }
      for i := 0 to count
        invariant count == old(count) && peers[..] == old(peers[..])
        invariant forall k :: 0 <= k < i ==> peers[k].nodeId != id
      {
        if peers[i].nodeId == id {
          var p := peers[i].(lastSeen := now);
          if msg.services.Some? {
            p := p.(services := Truncate(msg.services.value, SERVICES_LEN));
          }
          peers[i] := p;
          assert peers[..count] == old(peers[..count])[i := p];
          return;
        }
      }
      if count < cfg.maxPeers {
        peers[count] := NewPeer(msg, now);
        count := count + 1;
        assert peers[..count] == old(peers[..count]) + [NewPeer(msg, now)];
      }
    }

    // ceell_discovery_get_peers
    method GetPeers(maxPeers: nat) returns (out: seq<Peer>)
      requires Valid()
      ensures out == Entries()[..if |Entries()| < maxPeers then |Entries()| else maxPeers]
    {
      var copy := if count < maxPeers then count else maxPeers;
      out := peers[..copy];
    }

    // ceell_discovery_expire_peers
    method ExpirePeers(now: int) returns (expired: nat)
      requires Valid()
      modifies this, peers
      ensures Valid() && Entries() == ExpireSpec(old(Entries()), now, cfg.timeout)
      ensures expired == |old(Entries())| - |Entries()|
      ensures multiset(Entries()) == multiset(Fresh(old(Entries()), now, cfg.timeout))
    {
      expired := 0;
      var i := 0;
      while i < count
        invariant Valid() && i <= count
        invariant ExpireFrom(peers[..count], i, now, cfg.timeout) == ExpireSpec(old(Entries()), now, cfg.timeout)
        invariant expired + count == old(count)
        decreases count - i
      {
        ghost var before := peers[..count];
        if now - peers[i].lastSeen > cfg.timeout {
          if i < count - 1 {
            peers[i] := peers[count - 1];
          }
          count := count - 1;
          expired := expired + 1;
          assert peers[..count] == before[i := before[|before| - 1]][..|before| - 1];
        } else {
          i := i + 1;
        }
      }
      ExpireKeepsFresh(old(Entries()), now, cfg.timeout);
    }
  }
}
