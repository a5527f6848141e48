// The timing ring of ceell/core/timing.c: durations across counter wrap, and statistics
// over the most recent samples of a label.
module Timing {
  import opened Common

  // The number of slots and the counter's frequency are parameters of the build.
  datatype Options = Options(slots: nat, hz: nat)

  type Config = c: Options | 0 < c.slots < 0x1_0000_0000 && 0 < c.hz < 0x1_0000_0000 witness Options(64, 1000000)

  datatype Sample = Sample(tag: string, startCycle: Uint32, endCycle: Uint32, durationUs: Uint32)

  datatype Stats = Stats(minUs: Uint32, maxUs: Uint32, avgUs: Uint32, count: Uint32)

  const UINT32_MAX: Uint32 := 0xFFFF_FFFF

  // ---------------------------------------------------------------- durations

  // Microseconds in a number of cycles, exactly.
  function Micros(cfg: Config, cycles: nat): nat {
    cycles * 1000000 / cfg.hz
  }

  // cycles_to_us
  function CyclesToUs(cfg: Config, cycles: Uint32): Uint32 {
    ToUint32(Micros(cfg, cycles))
  }

  function NewSample(cfg: Config, tag: string, handle: Uint32, end: Uint32): Sample {
    Sample(tag, handle, end, CyclesToUs(cfg, ToUint32(end - handle)))
  }

  // The whole microseconds that pass in this many cycles, without computing them.
  ghost predicate WholeMicros(cfg: Config, cycles: nat, us: nat) {
    us * cfg.hz <= cycles * 1000000 < (us + 1) * cfg.hz
  }

  // A section that took fewer than 2^32 cycles is recorded with its true duration, whether
  // or not the counter wrapped in between, exactly when that duration fits 32 bits.
  lemma {:induction false} RecordsTrueDuration(cfg: Config, tag: string, start: nat, elapsed: nat)
    requires elapsed < 0x1_0000_0000
    ensures var s := NewSample(cfg, tag, ToUint32(start), ToUint32(start + elapsed));
      && s.tag == tag && s.startCycle == ToUint32(start) && s.endCycle == ToUint32(start + elapsed)
      && (WholeMicros(cfg, elapsed, s.durationUs) <==> elapsed * 1000000 < 0x1_0000_0000 * cfg.hz)
  {
    hide Micros, ToUint32;
    WrapDifference(start, elapsed);
    MicrosAreWhole(cfg, elapsed);
    TruncationHarmlessIff(cfg, elapsed, Micros(cfg, elapsed));
  }

  lemma TruncationHarmlessIff(cfg: Config, cycles: nat, us: nat)
    requires WholeMicros(cfg, cycles, us)
    ensures WholeMicros(cfg, cycles, ToUint32(us)) <==> cycles * 1000000 < 0x1_0000_0000 * cfg.hz
  {
    var d := ToUint32(us);
    if us < 0x1_0000_0000 {
      MultiplesApart(us, 0x1_0000_0000, cfg.hz);
    } else {
      MultiplesApart(d, us, cfg.hz);
      MultiplesApart(0x1_0000_0000, us, cfg.hz);
    }
    Distribute(us, cfg.hz);
    Distribute(d, cfg.hz);
  }

  lemma MicrosAreWhole(cfg: Config, cycles: nat)
    ensures WholeMicros(cfg, cycles, Micros(cfg, cycles))
  {
    var a, d := cycles * 1000000, Micros(cfg, cycles);
    assert a == d * cfg.hz + a % cfg.hz;
    assert (d + 1) * cfg.hz == d * cfg.hz + cfg.hz;
  }

  lemma WrapDifference(start: nat, elapsed: nat)
    requires elapsed < TWO_TO_THE_32
    ensures ToUint32(ToUint32(start + elapsed) - ToUint32(start)) == elapsed
  {
  }

  // With a clock of at least 1 MHz it always fits.
  lemma {:induction false} FastClockFits(cfg: Config, elapsed: nat)
    requires elapsed < 0x1_0000_0000 && cfg.hz >= 1000000
    ensures elapsed * 1000000 < 0x1_0000_0000 * cfg.hz
  {
    assert elapsed * 1000000 < 0x1_0000_0000 * 1000000;
    assert 0x1_0000_0000 * cfg.hz == 0x1_0000_0000 * 1000000 + 0x1_0000_0000 * (cfg.hz - 1000000);
  }

  lemma QuotientBounds(a: nat, b: nat, q: nat)
    requires b > 0
    ensures a <= q * b ==> a / b <= q
    ensures q * b <= a ==> q <= a / b
  {
    var d := a / b;
    assert a == d * b + a % b;
    MultiplesApart(q, d, b);
    MultiplesApart(d, q, b);
  }

  lemma MultiplesApart(p: nat, q: nat, n: nat)
    ensures p < q ==> p * n + n <= q * n
  {
    if p < q {
      var d := q - p - 1;
      assert q * n == (p + 1 + d) * n == p * n + n + d * n;
    }
  }

  // ---------------------------------------------------------------- statistics

  // The samples the ring still holds, oldest first.
  function Recent(cfg: Config, history: seq<Sample>): (r: seq<Sample>)
    ensures |r| == Min(|history|, cfg.slots)
  {
    history[if |history| <= cfg.slots then 0 else |history| - cfg.slots..]
  }

  // The durations of a label, in order.
  function Durations(samples: seq<Sample>, tag: string): (r: seq<Uint32>)
    ensures |r| <= |samples|
  {
    if |samples| == 0 then []
    else
      var n := |samples| - 1;
      Durations(samples[..n], tag) + (if samples[n].tag == tag then [samples[n].durationUs] else [])
  }

  // They are those of the samples with that label and no others.
  lemma {:induction false} DurationsMembers(samples: seq<Sample>, tag: string, d: Uint32)
    ensures d in Durations(samples, tag) <==>
      exists k :: 0 <= k < |samples| && samples[k].tag == tag && samples[k].durationUs == d
  {
    if |samples| > 0 {
      var n := |samples| - 1;
      DurationsMembers(samples[..n], tag, d);
      assert forall k :: 0 <= k < n ==> samples[..n][k] == samples[k];
      if d in Durations(samples[..n], tag) {
        var k :| 0 <= k < n && samples[..n][k].tag == tag && samples[..n][k].durationUs == d;
        assert samples[k].tag == tag;
      }
      if k :| 0 <= k < |samples| && samples[k].tag == tag && samples[k].durationUs == d {
        assert k < n ==> samples[..n][k].tag == tag;
      }
    }
  }

  // The sample just stored is among those its label's statistics are about.
  lemma LatestCounts(cfg: Config, history: seq<Sample>, sample: Sample)
    ensures sample.durationUs in Durations(Recent(cfg, history + [sample]), sample.tag)
  {
    var recent := Recent(cfg, history + [sample]);
    var n := |recent| - 1;
    assert recent[n] == sample;
    DurationsMembers(recent, sample.tag, sample.durationUs);
  }

  function Sum(xs: seq<Uint32>): nat {
    if |xs| == 0 then 0 else Sum(xs[..|xs| - 1]) + xs[|xs| - 1]
  }

  // The statistics of a non-empty collection of durations, said without computing them:
  // attained bounds, the floor of the mean, and the number of samples.
  ghost predicate Summarises(stats: Stats, ds: seq<Uint32>) {
    && |ds| > 0
    && stats.count == |ds|
    && stats.minUs in ds && stats.maxUs in ds
    && (forall d :: d in ds ==> stats.minUs <= d <= stats.maxUs)
    && stats.avgUs == Sum(ds) / |ds|
  }

  // What the accumulators of the scan hold after the durations seen so far.
  ghost predicate Running(ds: seq<Uint32>, minUs: int, maxUs: int, sumUs: int, count: int) {
    && count == |ds| && sumUs == Sum(ds)
    && 0 <= minUs <= UINT32_MAX && 0 <= maxUs <= UINT32_MAX
    && (forall d :: d in ds ==> minUs <= d <= maxUs)
    && (count > 0 ==> minUs in ds && maxUs in ds)
    && (count == 0 ==> minUs == UINT32_MAX && maxUs == 0)
  }

  lemma RunningStep(ds: seq<Uint32>, d: Uint32, minUs: int, maxUs: int, sumUs: int, count: int)
    requires Running(ds, minUs, maxUs, sumUs, count)
    ensures Running(ds + [d], Min(d, minUs), Max(d, maxUs), sumUs + d, count + 1)
  {
    assert (ds + [d])[..|ds|] == ds;
    assert forall x :: x in ds + [d] <==> x in ds || x == d;
  }

  lemma RunningStart(samples: seq<Sample>, tag: string)
    requires |samples| == 0
    ensures Running(Durations(samples, tag), UINT32_MAX, 0, 0, 0)
  {
  }

  lemma RunningEnd(ds: seq<Uint32>, minUs: int, maxUs: int, sumUs: int, count: int)
    requires Running(ds, minUs, maxUs, sumUs, count) && |ds| < TWO_TO_THE_32
    ensures count == |ds|
    ensures count > 0 ==>
      && 0 <= minUs <= sumUs / count <= maxUs < TWO_TO_THE_32
      && Summarises(Stats(minUs, maxUs, sumUs / count, count), ds)
  {
    if count > 0 {
      MeanBetween(ds, minUs, maxUs);
    }
  }

  lemma DurationsStep(samples: seq<Sample>, i: nat, tag: string)
    requires i < |samples|
    ensures samples[i].tag == tag ==>
      Durations(samples[..i + 1], tag) == Durations(samples[..i], tag) + [samples[i].durationUs]
    ensures samples[i].tag != tag ==> Durations(samples[..i + 1], tag) == Durations(samples[..i], tag)
  {
    assert samples[..i + 1][..i] == samples[..i];
  }

  lemma {:induction false} DurationsConcat(a: seq<Sample>, b: seq<Sample>, tag: string)
    ensures Durations(a + b, tag) == Durations(a, tag) + Durations(b, tag)
  {
    if |b| == 0 {
      assert a + b == a;
    } else {
      var n := |b| - 1;
      assert (a + b)[..|a| + n] == a + b[..n];
      DurationsConcat(a, b[..n], tag);
    }
  }

  lemma {:induction false} SumConcat(a: seq<Uint32>, b: seq<Uint32>)
    ensures Sum(a + b) == Sum(a) + Sum(b)
  {
    if |b| == 0 {
      assert a + b == a;
    } else {
      var n := |b| - 1;
      assert (a + b)[..|a| + n] == a + b[..n];
      SumConcat(a, b[..n]);
    }
  }

  lemma {:induction false} SumBounds(xs: seq<Uint32>, lo: Uint32, hi: Uint32)
    requires forall x :: x in xs ==> lo <= x <= hi
    ensures |xs| * lo <= Sum(xs) <= |xs| * hi
  {
    if |xs| > 0 {
      var n := |xs| - 1;
      assert forall x :: x in xs[..n] ==> x in xs;
      SumBounds(xs[..n], lo, hi);
      assert xs[n] in xs;
      Distribute(n, lo);
      Distribute(n, hi);
    }
  }

  lemma Distribute(n: nat, x: nat)
    ensures (n + 1) * x == n * x + x
  {
  }

  // Adding the durations up in 64 bits never overflows.
  lemma {:induction false} SumFits(xs: seq<Uint32>)
    requires |xs| < TWO_TO_THE_32
    ensures Sum(xs) < 0x1_0000_0000_0000_0000
  {
    SumBounds(xs, 0, UINT32_MAX);
  }

  lemma {:induction false} MeanBetween(ds: seq<Uint32>, lo: Uint32, hi: Uint32)
    requires |ds| > 0 && forall d :: d in ds ==> lo <= d <= hi
    ensures lo <= Sum(ds) / |ds| <= hi
  {
    SumBounds(ds, lo, hi);
    QuotientBounds(Sum(ds), |ds|, hi);
    QuotientBounds(Sum(ds), |ds|, lo);
  }

  // The statistics of a collection do not depend on where a ring starts.
  lemma {:induction false} RotationSummary(stats: Stats, a: seq<Sample>, b: seq<Sample>, tag: string)
    requires Summarises(stats, Durations(a + b, tag))
    ensures Summarises(stats, Durations(b + a, tag))
  {
    DurationsConcat(a, b, tag);
    DurationsConcat(b, a, tag);
    var x, y := Durations(a, tag), Durations(b, tag);
    SumConcat(x, y);
    SumConcat(y, x);
    assert forall d :: d in y + x <==> d in x + y;
  }

  // Any two summaries of the same durations agree, and the mean lies between the bounds.
  lemma {:induction false} SummaryUnique(s: Stats, t: Stats, ds: seq<Uint32>)
    requires Summarises(s, ds) && Summarises(t, ds)
    ensures s == t && s.minUs <= s.avgUs <= s.maxUs
  {
    MeanBetween(ds, s.minUs, s.maxUs);
  }

  // ---------------------------------------------------------------- the ring

  // Where sample k is stored: the ring is walked round and round.
  function SlotOf(cfg: Config, k: nat): (r: nat)
    ensures r < cfg.slots
  {
    if k < cfg.slots then k else SlotOf(cfg, k - cfg.slots)
  }

  lemma {:induction false} SlotsApart(cfg: Config, j: nat, k: nat)
    requires j < k < j + cfg.slots
    ensures SlotOf(cfg, j) != SlotOf(cfg, k)
  {
    if j >= cfg.slots {
      SlotsApart(cfg, j - cfg.slots, k - cfg.slots);
    }
  }

  function Advance(cfg: Config, slot: nat): nat {
    if slot + 1 < cfg.slots then slot + 1 else 0
  }

  lemma {:induction false} NextSlot(cfg: Config, n: nat)
    ensures SlotOf(cfg, n + 1) == Advance(cfg, SlotOf(cfg, n))
  {
    if n >= cfg.slots {
      NextSlot(cfg, n - cfg.slots);
    }
  }

  // The modulus in the code only ever wraps at the end of the array.
  lemma AdvanceIsModulus(cfg: Config, slot: nat)
    requires slot < cfg.slots
    ensures slot % cfg.slots == slot && (slot + 1) % cfg.slots == Advance(cfg, slot)
  {
    SmallModulus(slot, cfg.slots);
    if slot + 1 < cfg.slots {
      SmallModulus(slot + 1, cfg.slots);
    } else {
      WholeModulus(cfg.slots);
    }
  }

  lemma WholeModulus(n: nat)
    requires n > 0
    ensures n % n == 0
  {
    var d := n / n;
    assert n == d * n + n % n;
    MultiplesApart(1, d, n);
    MultiplesApart(d, 1, n);
  }

  lemma SmallModulus(x: nat, n: nat)
    requires x < n
    ensures x % n == x
  {
    var d := x / n;
    assert x == d * n + x % n;
    MultiplesApart(0, d, n);
  }

  lemma EarlySlot(cfg: Config, k: nat)
    requires k < cfg.slots
    ensures SlotOf(cfg, k) == k
  {
  }

  // With the ring full, the i-th oldest sample is i slots after the head, going round.
  lemma {:induction false} AfterHead(cfg: Config, n: nat, i: nat)
    requires n >= cfg.slots && i < cfg.slots
    ensures var h := SlotOf(cfg, n);
      SlotOf(cfg, n - cfg.slots + i) == (if h + i < cfg.slots then h + i else h + i - cfg.slots)
  {
    if n >= 2 * cfg.slots {
      AfterHead(cfg, n - cfg.slots, i);
    }
  }

  // The most recent samples are each in their slot.
  ghost predicate Stored(cfg: Config, ring: seq<Sample>, history: seq<Sample>) {
    && |ring| == cfg.slots
    && forall k :: 0 <= k < |history| && |history| - cfg.slots <= k ==> ring[SlotOf(cfg, k)] == history[k]
  }

  lemma {:induction false} StoreNext(cfg: Config, ring: seq<Sample>, history: seq<Sample>, sample: Sample)
    requires Stored(cfg, ring, history)
    ensures Stored(cfg, ring[SlotOf(cfg, |history|) := sample], history + [sample])
  {
    hide SlotOf;
    var n := |history|;
    forall k | 0 <= k < n && n + 1 - cfg.slots <= k
      ensures SlotOf(cfg, k) != SlotOf(cfg, n)
    {
      SlotsApart(cfg, k, n);
    }
  }

  // The slots in use hold the recent samples, starting from the head when the ring is full.
  lemma {:induction false} RingIsRotation(cfg: Config, ring: seq<Sample>, history: seq<Sample>)
    returns (older: seq<Sample>, newer: seq<Sample>)
    requires Stored(cfg, ring, history)
    ensures Recent(cfg, history) == older + newer
    ensures ring[..Min(|history|, cfg.slots)] == newer + older
  {
    if |history| < cfg.slots {
      older, newer := history, [];
      PartialRing(cfg, ring, history);
    } else {
      var recent, h := Recent(cfg, history), SlotOf(cfg, |history|);
      older, newer := recent[..cfg.slots - h], recent[cfg.slots - h..];
      FullRing(cfg, ring, history);
    }
  }

  lemma {:induction false} PartialRing(cfg: Config, ring: seq<Sample>, history: seq<Sample>)
    requires Stored(cfg, ring, history) && |history| < cfg.slots
    ensures ring[..|history|] == history
  {
    hide SlotOf;
    forall k | 0 <= k < |history|
      ensures ring[k] == history[k]
    {
      EarlySlot(cfg, k);
    }
  }

  lemma {:induction false} FullRing(cfg: Config, ring: seq<Sample>, history: seq<Sample>)
    requires Stored(cfg, ring, history) && |history| >= cfg.slots
    ensures var recent, oldest := Recent(cfg, history), cfg.slots - SlotOf(cfg, |history|);
      ring == recent[oldest..] + recent[..oldest]
  {
    hide SlotOf, Recent;
    var recent, h := Recent(cfg, history), SlotOf(cfg, |history|);
    var oldest := cfg.slots - h;
    forall k | 0 <= k < cfg.slots
      ensures ring[k] == (recent[oldest..] + recent[..oldest])[k]
    {
      FullRingAt(cfg, ring, history, if k < h then k + oldest else k - h);
    }
  }

  // The i-th oldest sample sits i slots after the head, going round.
  lemma FullRingAt(cfg: Config, ring: seq<Sample>, history: seq<Sample>, i: nat)
    requires Stored(cfg, ring, history) && |history| >= cfg.slots && i < cfg.slots
    ensures var h := SlotOf(cfg, |history|);
      ring[if h + i < cfg.slots then h + i else h + i - cfg.slots] == Recent(cfg, history)[i]
  {
    hide SlotOf;
    AfterHead(cfg, |history|, i);
    assert ring[SlotOf(cfg, |history| - cfg.slots + i)] == history[|history| - cfg.slots + i];
  }

  class Recorder {
    const cfg: Config
    const samples: array<Sample>
    var sampleHead: nat
    var sampleCount: nat
    var initialized: bool
    // Every sample recorded since initialisation.
    ghost var history: seq<Sample>

    ghost predicate Valid()
      reads this, samples
    {
      && sampleHead == SlotOf(cfg, |history|)
      && sampleCount == Min(|history|, cfg.slots)
      && samples.Length == cfg.slots
      && Stored(cfg, samples[..], history)
    }

    // The static variables before and after ceell_timing_init.
    constructor (cfg: Config, init: bool)
      ensures Valid() && history == [] && initialized == init && this.cfg == cfg && fresh(samples)
    {
      this.cfg := cfg;
      samples := new Sample[cfg.slots](_ => Sample("", 0, 0, 0));
      sampleHead, sampleCount, initialized, history := 0, 0, init, [];
      new;
      NextSlot(cfg, 0);
    }

    // ceell_timing_stop, with the counter read as `end`.
    method Stop(tag: Option<string>, handle: Uint32, end: Uint32)
      requires Valid()
      modifies this`sampleHead, this`sampleCount, this`history, samples
      ensures Valid()
      ensures history == old(history) +
        (if initialized && tag.Some? then [NewSample(cfg, tag.value, handle, end)] else [])
    {
      hide SlotOf, CyclesToUs, Stored;
      if !initialized || tag.None? {
        return;
      }
      var durationCycles := ToUint32(end - handle);
      ghost var n := |history|;
      NextSlot(cfg, n);
      AdvanceIsModulus(cfg, sampleHead);
      samples[sampleHead % cfg.slots] := Sample(tag.value, handle, end, CyclesToUs(cfg, durationCycles));
      sampleHead := (sampleHead + 1) % cfg.slots;
      if sampleCount < cfg.slots {
        sampleCount := sampleCount + 1;
      }
      history := history + [NewSample(cfg, tag.value, handle, end)];
      StoreNext(cfg, old(samples[..]), old(history), NewSample(cfg, tag.value, handle, end));
      assert samples[..] == old(samples[..])[SlotOf(cfg, n) := NewSample(cfg, tag.value, handle, end)];
    }

    // ceell_timing_get_stats; None stands for -1.
    method GetStats(tag: Option<string>) returns (stats: Option<Stats>)
      requires Valid()
      ensures stats.Some? <==> initialized && tag.Some? && |Durations(Recent(cfg, history), tag.value)| > 0
      ensures stats.Some? ==> Summarises(stats.value, Durations(Recent(cfg, history), tag.value))
    {
      hide Durations, SlotOf, Recent, Running, Summarises;
      if tag.None? || !initialized {
        return None;
      }
      RunningStart(samples[..0], tag.value);
      var minUs, maxUs, sumUs, count: nat := UINT32_MAX, 0, 0, 0;
      for i := 0 to sampleCount
        invariant Valid()
        invariant Running(Durations(samples[..i], tag.value), minUs, maxUs, sumUs, count)
      {
        DurationsStep(samples[..], i, tag.value);
        if samples[i].tag == tag.value {
          RunningStep(Durations(samples[..i], tag.value), samples[i].durationUs, minUs, maxUs, sumUs, count);
          if samples[i].durationUs < minUs {
            minUs := samples[i].durationUs;
          }
          if samples[i].durationUs > maxUs {
            maxUs := samples[i].durationUs;
          }
          sumUs := sumUs + samples[i].durationUs;
          count := count + 1;
        }
      }
      ghost var ds := Durations(samples[..sampleCount], tag.value);
      ghost var older, newer := RingIsRotation(cfg, samples[..], history);
      DurationsConcat(older, newer, tag.value);
      DurationsConcat(newer, older, tag.value);
      RunningEnd(ds, minUs, maxUs, sumUs, count);
      if count == 0 {
        return None;
      }
      var result := Stats(minUs, maxUs, sumUs / count, count);
      RotationSummary(result, newer, older, tag.value);
      return Some(result);
    }

    // A timed section, as in the lifecycle loop: its duration shows in the statistics of its
    // label, with the counter wrapping or not, if it fits 32 bits.
    method TimeSection(tag: string, start: nat, elapsed: nat) returns (stats: Stats, ghost us: nat)
      requires Valid() && initialized
      requires elapsed < 0x1_0000_0000 && elapsed * 1000000 < 0x1_0000_0000 * cfg.hz
      modifies this`sampleHead, this`sampleCount, this`history, samples
      ensures Valid() && WholeMicros(cfg, elapsed, us)
      ensures 1 <= stats.count && stats.minUs <= us <= stats.maxUs
    {
      hide SlotOf, Recent, Durations, CyclesToUs, Stored, WholeMicros;
      var handle, end := ToUint32(start), ToUint32(start + elapsed);
      RecordsTrueDuration(cfg, tag, start, elapsed);
      us := NewSample(cfg, tag, handle, end).durationUs;
      LatestCounts(cfg, history, NewSample(cfg, tag, handle, end));
      Stop(Some(tag), handle, end);
      var found := GetStats(Some(tag));
      stats := found.value;
    }
  }
}
