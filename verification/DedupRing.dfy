// Dual-path deduplication (ceell/network/msg_redundancy.c): a 32-slot ring searched
// backwards, refining a sliding window over the accepted sequence numbers.
module DedupRing {
  import opened Common

  const RING_SIZE: nat := 32

  // The most recently accepted ones the ring still remembers.
  function Window<T>(accepted: seq<T>): (w: seq<T>)
    ensures |w| == Min(|accepted|, RING_SIZE)
    ensures forall k :: 0 <= k < |w| ==> w[k] == accepted[|accepted| - |w| + k]
  {
    accepted[if |accepted| < RING_SIZE then 0 else |accepted| - RING_SIZE..]
  }

  // A number is accepted unless the window holds it.
  function AcceptSpec<T(==)>(accepted: seq<T>, x: T): seq<T> {
    if x in Window(accepted) then accepted else accepted + [x]
  }

  // What is accepted of a whole sequence of arrivals.
  function AcceptAll<T(==)>(arrivals: seq<T>): seq<T> {
    if |arrivals| == 0 then []
    else AcceptSpec(AcceptAll(arrivals[..|arrivals| - 1]), arrivals[|arrivals| - 1])
  }

  // ---------------------------------------------------------------- the ring

  // Where acceptance k is stored.
  function SlotOf(k: nat): nat {
    k % RING_SIZE
  }

  // Slot i steps back from the head holds acceptance n - 1 - i.
  lemma Backwards(n: nat, i: nat)
    requires i < RING_SIZE && i < n
    ensures (SlotOf(n) - 1 - i + RING_SIZE) % RING_SIZE == SlotOf(n - 1 - i) < RING_SIZE
  {
  }

  lemma SlotsApart(k: nat, n: nat)
    requires k < n < k + RING_SIZE
    ensures SlotOf(k) != SlotOf(n)
  {
  }

  lemma NextSlot(n: nat)
    ensures SlotOf(n) < RING_SIZE && (SlotOf(n) + 1) % RING_SIZE == SlotOf(n + 1) && SlotOf(0) == 0
  {
  }

  class Ring {
    const ring: array<Uint32>
    var head: nat
    var count: nat
    // Every number accepted since initialisation.
    ghost var accepted: seq<Uint32>

    // The ring holds the window.
    ghost predicate Valid()
      reads this, ring
    {
      && ring.Length == RING_SIZE
      && head == SlotOf(|accepted|)
      && count == |Window(accepted)|
      && forall k :: |accepted| - count <= k < |accepted| ==>
           SlotOf(k) < RING_SIZE && ring[SlotOf(k)] == accepted[k]
    }

    constructor ()
      ensures Valid() && accepted == [] && fresh(ring)
    {
      ring := new Uint32[RING_SIZE](_ => 0);
      head, count, accepted := 0, 0, [];
    }

    // ceell_msg_dedup_check
    method Check(number: Uint32) returns (duplicate: bool)
      requires Valid()
      modifies this, ring
      ensures Valid()
      ensures duplicate <==> number in Window(old(accepted))
      ensures accepted == AcceptSpec(old(accepted), number)
    {
      hide SlotOf, Window;
      var searchCount := if count < RING_SIZE then count else RING_SIZE;
      ghost var n := |accepted|;
      NextSlot(n);
      for i := 0 to searchCount
        invariant Valid() && accepted == old(accepted) && searchCount == count <= n
        invariant forall k :: n - i <= k < n ==> accepted[k] != number
      {
        var idx := (head - 1 - i + RING_SIZE) % RING_SIZE;
        Backwards(n, i);
        if ring[idx] == number {
          assert Window(accepted)[count - 1 - i] == accepted[n - 1 - i];
          return true;
        }
      }
      ring[head] := number;
      head := (head + 1) % RING_SIZE;
      if count < RING_SIZE {
        count := count + 1;
      }
      accepted := accepted + [number];
      forall k | n + 1 - count <= k < n
        ensures SlotOf(k) != SlotOf(n)
      {
        SlotsApart(k, n);
      }
      return false;
    }
  }

  // ---------------------------------------------------------------- the window

  // Between two acceptances of the same number, at least 32 others are accepted.
  ghost predicate FarApart<T>(accepted: seq<T>) {
    forall j, k :: 0 <= j < k < |accepted| && accepted[j] == accepted[k] ==> k - j > RING_SIZE
  }

  // For all arrivals; so the entries the ring stores are pairwise distinct. Number 0 is
  // no exception.
  lemma {:induction false} ReacceptanceIsFar<T>(arrivals: seq<T>)
    ensures FarApart(AcceptAll(arrivals))
  {
    hide AcceptSpec, FarApart;
    if |arrivals| == 0 {
      NothingNear(AcceptAll(arrivals));
    } else {
      var n := |arrivals| - 1;
      ReacceptanceIsFar(arrivals[..n]);
      AcceptKeepsFar(AcceptAll(arrivals[..n]), arrivals[n]);
    }
  }

  lemma NothingNear<T>(accepted: seq<T>)
    requires |accepted| == 0
    ensures FarApart(accepted)
  {
  }

  lemma {:induction false} AcceptKeepsFar<T>(accepted: seq<T>, number: T)
    requires FarApart(accepted)
    ensures FarApart(AcceptSpec(accepted, number))
  {
    hide Window;
    var w, n := Window(accepted), |accepted|;
    if number !in w {
      forall i | 0 <= i < n && n - i <= RING_SIZE
        ensures accepted[i] != number
      {
        assert w[i - (n - |w|)] == accepted[i];
      }
      assert forall j, k :: 0 <= j < k < n && accepted[j] == accepted[k] ==> k - j > RING_SIZE;
    }
  }

  // Everything that arrived is either accepted on arrival or was accepted before: nothing
  // is lost.
  lemma {:induction false} NothingLost<T>(arrivals: seq<T>, x: T)
    ensures x in arrivals <==> x in AcceptAll(arrivals)
  {
    if |arrivals| > 0 {
      var n := |arrivals| - 1;
      NothingLost(arrivals[..n], x);
      assert arrivals == arrivals[..n] + [arrivals[n]];
    }
  }

  // ---------------------------------------------------------------- positions in a stream

  // The numbers the sender sends, in order, without end.
  type Stream = nat -> Uint32

  // What arrives, on however many paths, is a sequence of positions in the stream.
  function Carried(stream: Stream, positions: seq<nat>): (r: seq<Uint32>)
    ensures |r| == |positions| && forall k :: 0 <= k < |r| ==> r[k] == stream(positions[k])
  {
    seq(|positions|, k requires 0 <= k < |positions| => stream(positions[k]))
  }

  // Each position once, in the order of first arrival: what the receiver should accept.
  function Firsts(positions: seq<nat>): seq<nat> {
    if |positions| == 0 then []
    else
      var n := |positions| - 1;
      var before := Firsts(positions[..n]);
      if positions[n] in before then before else before + [positions[n]]
  }

  // No arriving number equals that of another position the ring still sees.
  ghost predicate SeesApart(stream: Stream, positions: seq<nat>) {
    |positions| == 0 ||
    var n := |positions| - 1;
    SeesApart(stream, positions[..n]) && ApartFrom(stream, positions[n], Window(AcceptAll(positions[..n])))
  }

  ghost predicate ApartFrom(stream: Stream, p: nat, window: seq<nat>) {
    forall j :: j in window && j != p ==> stream(j) != stream(p)
  }

  // Streams that never repeat a number among those arriving are of this kind.
  lemma {:induction false} DistinctSeesApart(stream: Stream, positions: seq<nat>)
    requires forall j, k :: j in positions && k in positions && j != k ==> stream(j) != stream(k)
    ensures SeesApart(stream, positions)
  {
    hide Window;
    if |positions| > 0 {
      var n := |positions| - 1;
      var front := positions[..n];
      DistinctSeesApart(stream, front);
      forall j | j in Window(AcceptAll(front)) && j != positions[n]
        ensures stream(j) != stream(positions[n])
      {
        InWindow(AcceptAll(front), j);
        NothingLost(front, j);
      }
    }
  }

  lemma InWindow<T>(accepted: seq<T>, x: T)
    ensures x in Window(accepted) ==> x in accepted
  {
  }

  // Every position that arrives again is among the last 32 to have arrived first.
  ghost predicate Recalled(positions: seq<nat>) {
    |positions| == 0 ||
    var n := |positions| - 1;
    var before := Firsts(positions[..n]);
    Recalled(positions[..n]) && (positions[n] in before ==> positions[n] in Window(before))
  }

  // For all arrivals, over any paths and with any losses and reordering: every number that
  // arrives is accepted once, in the order of first arrival, if and only if each repetition
  // comes while its number is among the last 32 new ones.
  lemma {:induction false} ExactlyOnceIffRecalled(stream: Stream, positions: seq<nat>)
    requires SeesApart(stream, positions)
    ensures AcceptAll(Carried(stream, positions)) == Carried(stream, Firsts(positions)) <==> Recalled(positions)
  {
    hide AcceptAll, Firsts, Recalled, SeesApart;
    NumbersFollowPositions(stream, positions);
    RecalledOutcome(positions);
  }

  lemma {:induction false} FirstsMembers(positions: seq<nat>, p: nat)
    ensures p in Firsts(positions) <==> p in positions
  {
    if |positions| > 0 {
      var n := |positions| - 1;
      FirstsMembers(positions[..n], p);
      assert positions == positions[..n] + [positions[n]];
    }
  }

  lemma {:induction false} FirstsDistinct(positions: seq<nat>)
    ensures Distinct(Firsts(positions))
  {
    if |positions| > 0 {
      FirstsDistinct(positions[..|positions| - 1]);
    }
  }

  ghost predicate Distinct<T>(xs: seq<T>) {
    forall j, k :: 0 <= j < k < |xs| ==> xs[j] != xs[k]
  }

  // The ring works on numbers as it would on positions.
  lemma {:induction false} NumbersFollowPositions(stream: Stream, positions: seq<nat>)
    requires SeesApart(stream, positions)
    ensures AcceptAll(Carried(stream, positions)) == Carried(stream, AcceptAll(positions))
  {
    hide Window;
    if |positions| > 0 {
      var n := |positions| - 1;
      var front := positions[..n];
      NumbersFollowPositions(stream, front);
      assert Carried(stream, positions)[..n] == Carried(stream, front);
      NumberInWindow(stream, AcceptAll(front), positions[n]);
    }
  }

  lemma NumberInWindow(stream: Stream, accepted: seq<nat>, p: nat)
    requires ApartFrom(stream, p, Window(accepted))
    ensures stream(p) in Window(Carried(stream, accepted)) <==> p in Window(accepted)
  {
    hide Window;
    var w, v := Window(accepted), Window(Carried(stream, accepted));
    assert |v| == |w| && forall k :: 0 <= k < |w| ==> w[k] in w && v[k] == stream(w[k]);
    if p in w {
      var k :| 0 <= k < |w| && w[k] == p;
      assert v[k] == stream(p);
    }
  }

  // On positions: the first arrivals while all repetitions are recalled, more of them after.
  ghost predicate Outcome(positions: seq<nat>) {
    if Recalled(positions) then AcceptAll(positions) == Firsts(positions)
    else |AcceptAll(positions)| > |Firsts(positions)|
  }

  lemma {:induction false} RecalledOutcome(positions: seq<nat>)
    ensures Outcome(positions)
  {
    hide Outcome;
    if |positions| == 0 {
      NothingArrived();
    } else {
      RecalledOutcome(positions[..|positions| - 1]);
      OneMoreArrival(positions);
    }
  }

  lemma NothingArrived()
    ensures Outcome([])
  {
  }

  lemma {:induction false} OneMoreArrival(positions: seq<nat>)
    requires |positions| > 0 && Outcome(positions[..|positions| - 1])
    ensures Outcome(positions)
  {
    hide Window;
    var n := |positions| - 1;
    var front, p := positions[..n], positions[n];
    FirstsMembers(front, p);
    NothingLost(front, p);
    InWindow(AcceptAll(front), p);
  }

  // ---------------------------------------------------------------- two paths without loss

  // An interleaving of the two paths: which one delivers its next number.
  function Delivered(run: seq<bool>, path: bool): nat {
    if |run| == 0 then 0
    else Delivered(run[..|run| - 1], path) + (if run[|run| - 1] == path then 1 else 0)
  }

  // How far the more advanced path has got.
  function Front(run: seq<bool>): nat {
    Max(Delivered(run, true), Delivered(run, false))
  }

  // What arrives when both paths carry the whole stream in order.
  function Positions(run: seq<bool>): (r: seq<nat>)
    ensures |r| == |run|
  {
    if |run| == 0 then []
    else
      var n := |run| - 1;
      Positions(run[..n]) + [Delivered(run[..n], run[n])]
  }

  // No path delivers a number while it is more than 32 behind the other.
  ghost predicate WithinSkew(run: seq<bool>) {
    forall k :: 0 <= k < |run| ==> Delivered(run[..k], !run[k]) - Delivered(run[..k], run[k]) <= RING_SIZE
  }

  // For every interleaving of the two paths, the accepted numbers are exactly the stream,
  // once each and in order, if and only if no number is delivered more than 32 behind.
  lemma {:induction false} ExactlyOnceIffWithinSkew(stream: Stream, run: seq<bool>)
    requires SeesApart(stream, Positions(run))
    ensures AcceptAll(Carried(stream, Positions(run))) == Carried(stream, UpTo(Front(run))) <==> WithinSkew(run)
  {
    hide AcceptAll, SeesApart, Recalled, WithinSkew, Positions, Front;
    PathPositions(run);
    ExactlyOnceIffRecalled(stream, Positions(run));
    SkewIsRecall(run);
  }

  function UpTo(n: nat): (r: seq<nat>)
    ensures |r| == n && forall k :: 0 <= k < n ==> r[k] == k
  {
    seq(n, k => k)
  }

  // Without loss the first arrivals are the stream itself.
  lemma {:induction false} PathPositions(run: seq<bool>)
    ensures Firsts(Positions(run)) == UpTo(Front(run))
  {
    if |run| > 0 {
      var n := |run| - 1;
      PathPositions(run[..n]);
      assert Positions(run)[..n] == Positions(run[..n]);
      var i, m := Delivered(run[..n], run[n]), Front(run[..n]);
      assert i < m ==> UpTo(m)[i] == i;
    }
  }

  // A repetition is recalled exactly when the path that brings it is at most 32 behind.
  lemma {:induction false} SkewIsRecall(run: seq<bool>)
    ensures Recalled(Positions(run)) <==> WithinSkew(run)
  {
    hide WithinSkew, Window;
    if |run| == 0 {
      NothingToRecall(run);
    } else {
      var n := |run| - 1;
      var front := run[..n];
      var i, m := Delivered(front, run[n]), Front(front);
      SkewIsRecall(front);
      assert Positions(run)[..n] == Positions(front);
      SkewStep(run);
      PathPositions(front);
      WindowUpTo(m, i);
    }
  }

  lemma NothingToRecall(run: seq<bool>)
    requires |run| == 0
    ensures Recalled(Positions(run)) && WithinSkew(run)
  {
  }

  lemma SkewStep(run: seq<bool>)
    requires |run| > 0
    ensures var n := |run| - 1;
      WithinSkew(run) <==>
        (WithinSkew(run[..n]) && Delivered(run[..n], !run[n]) - Delivered(run[..n], run[n]) <= RING_SIZE)
  {
    var n := |run| - 1;
    assert forall k :: 0 <= k < n ==> run[..n][..k] == run[..k];
  }

  lemma WindowUpTo(m: nat, i: nat)
    ensures i in UpTo(m) <==> i < m
    ensures i in Window(UpTo(m)) <==> m - RING_SIZE <= i < m
  {
    var w := Window(UpTo(m));
    if i < m {
      assert UpTo(m)[i] == i;
      if m - RING_SIZE <= i {
        assert w[i - (m - |w|)] == i;
      }
    }
  }

  // Within the skew, numbers need only differ from those up to 32 before them.
  lemma {:induction false} NearbyDistinctSeesApart(stream: Stream, run: seq<bool>)
    requires WithinSkew(run) && forall j: nat, k: nat :: j < k <= j + RING_SIZE ==> stream(j) != stream(k)
    ensures SeesApart(stream, Positions(run))
  {
    hide AcceptAll, WithinSkew, Window;
    if |run| > 0 {
      var n := |run| - 1;
      var front := run[..n];
      SkewStep(run);
      NearbyDistinctSeesApart(stream, front);
      assert Positions(run)[..n] == Positions(front);
      SkewIsRecall(front);
      RecalledOutcome(Positions(front));
      PathPositions(front);
      forall j | j in Window(UpTo(Front(front)))
        ensures Front(front) - RING_SIZE <= j < Front(front)
      {
        WindowUpTo(Front(front), j);
      }
    }
  }

  // An accepted number is remembered exactly while it is among the last 32.
  lemma OldInWindow(accepted: seq<Uint32>, i: nat)
    requires Distinct(accepted) && i < |accepted|
    ensures accepted[i] in Window(accepted) <==> |accepted| - i <= RING_SIZE
  {
    hide Window;
    var w, n := Window(accepted), |accepted|;
    if n - i <= RING_SIZE {
      assert w[i - (n - |w|)] == accepted[i];
    } else {
      forall k | 0 <= k < |w|
        ensures w[k] != accepted[i]
      {
        assert w[k] == accepted[n - |w| + k];
      }
    }
  }

  // A lead of 33 is one too many: after 33 numbers on one path, the first number of
  // the other is accepted again; after 32 it is not.
  lemma LeadOf33Duplicates(accepted: seq<Uint32>)
    requires Distinct(accepted) && 0 < |accepted| <= RING_SIZE + 1
    ensures AcceptSpec(accepted, accepted[0]) == accepted <==> |accepted| <= RING_SIZE
  {
    OldInWindow(accepted, 0);
  }

  // ---------------------------------------------------------------- two paths that lose

  datatype Delivery = Delivery(path: bool, position: nat)

  function Places(deliveries: seq<Delivery>): (r: seq<nat>)
    ensures |r| == |deliveries| && forall k :: 0 <= k < |r| ==> r[k] == deliveries[k].position
  {
    seq(|deliveries|, k requires 0 <= k < |deliveries| => deliveries[k].position)
  }

  // Each path delivers some of the stream, in order.
  ghost predicate InOrder(deliveries: seq<Delivery>) {
    forall j, k :: 0 <= j < k < |deliveries| && deliveries[j].path == deliveries[k].path ==>
      deliveries[j].position < deliveries[k].position
  }

  // No delivery lies more than `span` positions behind what the other path delivered before.
  ghost predicate WithinSpan(deliveries: seq<Delivery>, span: nat) {
    forall j, k :: 0 <= j < k < |deliveries| && deliveries[j].path != deliveries[k].path ==>
      deliveries[j].position - deliveries[k].position <= span
  }

  // On paths that may lose anything, 15 positions of skew are safe and 16 are not: losses
  // on the leading path let the lagging one bring as many new numbers again.
  lemma {:induction false} SpanExactly(span: nat)
    ensures (forall deliveries :: InOrder(deliveries) && WithinSpan(deliveries, span) ==> Recalled(Places(deliveries)))
      <==> span <= 15
  {
    if span <= 15 {
      forall deliveries | InOrder(deliveries) && WithinSpan(deliveries, span)
        ensures Recalled(Places(deliveries))
      {
        SafeSpan(deliveries);
      }
    } else {
      var deliveries := Straggler();
      assert WithinSpan(deliveries, span);
    }
  }

  // So over two lossy paths within that skew, whatever arrives at all is accepted exactly
  // once, in the order of first arrival.
  lemma {:induction false} LossyPathsExactlyOnce(stream: Stream, deliveries: seq<Delivery>)
    requires SeesApart(stream, Places(deliveries))
    requires InOrder(deliveries) && WithinSpan(deliveries, 15)
    ensures AcceptAll(Carried(stream, Places(deliveries))) == Carried(stream, Firsts(Places(deliveries)))
  {
    SafeSpan(deliveries);
    ExactlyOnceIffRecalled(stream, Places(deliveries));
  }

  lemma {:induction false} SafeSpan(deliveries: seq<Delivery>)
    requires InOrder(deliveries) && WithinSpan(deliveries, 15)
    ensures Recalled(Places(deliveries))
  {
    hide Firsts, Window;
    if |deliveries| > 0 {
      var n := |deliveries| - 1;
      var places := Places(deliveries);
      SafeSpan(deliveries[..n]);
      assert Places(deliveries[..n]) == places[..n];
      if places[n] in Firsts(places[..n]) {
        FirstsMembers(places[..n], places[n]);
        var t := FirstTime(places[..n], places[n]);
        RecalledInTime(deliveries, t, n);
      }
    }
  }

  lemma FirstTime(xs: seq<nat>, x: nat) returns (t: nat)
    requires x in xs
    ensures t < |xs| && xs[t] == x && x !in xs[..t]
  {
    if x in xs[..|xs| - 1] {
      t := FirstTime(xs[..|xs| - 1], x);
      assert xs[..|xs| - 1][..t] == xs[..t];
    } else {
      t := |xs| - 1;
    }
  }

  // What first arrives after a sequence of arrivals.
  lemma {:induction false} FirstsExtend(a: seq<nat>, b: seq<nat>) returns (more: seq<nat>)
    ensures Firsts(a + b) == Firsts(a) + more
    ensures forall x :: x in more ==> x in b
  {
    if |b| == 0 {
      assert a + b == a;
      more := [];
    } else {
      var n := |b| - 1;
      more := FirstsExtend(a, b[..n]);
      assert (a + b)[..|a| + n] == a + b[..n];
      if b[n] !in Firsts(a + b[..n]) {
        more := more + [b[n]];
      }
    }
  }

  // Between first and second arrival at most 30 new positions arrive.
  lemma {:induction false} RecalledInTime(deliveries: seq<Delivery>, t: nat, k: nat)
    requires InOrder(deliveries) && WithinSpan(deliveries, 15)
    requires t < k < |deliveries| && deliveries[t].position == deliveries[k].position
    requires deliveries[k].position !in Places(deliveries)[..t]
    ensures deliveries[k].position in Window(Firsts(Places(deliveries)[..k]))
  {
    hide InOrder, WithinSpan, Window, Distinct, Places, Firsts;
    var places, p := Places(deliveries), deliveries[k].position;
    var more := SinceFirst(places, t, k);
    FirstsDistinct(places[..k]);
    DistinctSuffix(Firsts(places[..t]), [p] + more);
    forall x | x in more
      ensures Near(x, p)
    {
      var s :| t < s < k && places[s] == x;
      NearBy(deliveries, t, s, k);
    }
    FewNear(more, p);
    SuffixInWindow(Firsts(places[..t]), more, p);
  }

  predicate Near(x: int, p: int) {
    p - 15 <= x <= p + 15
  }

  // The new positions since the first arrival of position t's.
  lemma SinceFirst(places: seq<nat>, t: nat, k: nat) returns (more: seq<nat>)
    requires t < k <= |places| && places[t] !in places[..t]
    ensures Firsts(places[..k]) == Firsts(places[..t]) + ([places[t]] + more)
    ensures forall x :: x in more ==> exists s :: t < s < k && places[s] == x
  {
    var before, since := places[..t + 1], places[t + 1..k];
    assert before + since == places[..k];
    assert before[..t] == places[..t];
    FirstsMembers(places[..t], places[t]);
    more := FirstsExtend(before, since);
    assert Firsts(before) == Firsts(places[..t]) + [places[t]];
    forall x | x in more
      ensures exists s :: t < s < k && places[s] == x
    {
      var s :| 0 <= s < |since| && since[s] == x;
      assert places[t + 1 + s] == x;
    }
  }

  lemma FewNear(more: seq<nat>, p: nat)
    requires Distinct([p] + more) && forall x :: x in more ==> Near(x, p)
    ensures |more| <= 30
  {
    var lo: int := p as int - 15;
    var xs: seq<int> := [p] + more;
    forall i | 0 <= i < |xs|
      ensures xs[i] in Around(lo, 31)
    {
      if i > 0 {
        assert xs[i] == more[i - 1] && more[i - 1] in more;
      }
    }
    PigeonHole(xs, Around(lo, 31));
  }

  lemma NearBy(deliveries: seq<Delivery>, t: nat, s: nat, k: nat)
    requires InOrder(deliveries) && WithinSpan(deliveries, 15)
    requires t < s < k < |deliveries| && deliveries[t].position == deliveries[k].position
    ensures -15 <= deliveries[s].position - deliveries[k].position <= 15
  {
    assert deliveries[t].path != deliveries[k].path;
  }

  lemma DistinctSuffix(a: seq<nat>, b: seq<nat>)
    requires Distinct(a + b)
    ensures Distinct(b)
  {
    assert forall k :: 0 <= k < |b| ==> b[k] == (a + b)[|a| + k];
  }

  lemma SuffixInWindow(a: seq<nat>, more: seq<nat>, p: nat)
    requires |more| < RING_SIZE
    ensures p in Window(a + ([p] + more))
  {
    var accepted := a + ([p] + more);
    var w := Window(accepted);
    assert accepted[|a|] == p && w[|a| - (|accepted| - |w|)] == p;
  }

  // The n integers from lo on.
  function Around(lo: int, n: nat): (r: set<int>)
    ensures |r| == n && forall x :: x in r <==> lo <= x < lo + n
  {
    if n == 0 then {} else Around(lo, n - 1) + {lo + n - 1}
  }

  // One path delivers 16 and, having lost everything before, 17 to 32; the other delivers 0
  // to 15 in between and 16 at the end, when 32 new positions have arrived since the first 16.
  lemma Straggler() returns (deliveries: seq<Delivery>)
    ensures InOrder(deliveries) && WithinSpan(deliveries, 16) && !Recalled(Places(deliveries))
  {
    deliveries := seq(34, (k: nat) =>
      if k == 0 then Delivery(true, 16)
      else if k <= 16 then Delivery(false, k - 1)
      else if k <= 32 then Delivery(true, k)
      else Delivery(false, 16));
    var places := Places(deliveries);
    var all := places[..33];
    FirstsOfDistinct(all);
    assert all[0] == 16;
    assert 16 !in Window(all);
  }

  lemma {:induction false} FirstsOfDistinct(xs: seq<nat>)
    requires Distinct(xs)
    ensures Firsts(xs) == xs
  {
    if |xs| > 0 {
      FirstsOfDistinct(xs[..|xs| - 1]);
    }
  }
}
