/** measured_ceiling of scripts/subgov_host_capacity.py: how many workers a host's
    measured resources leave room for, and the pressure clock that takes one slot
    away once pressure has lasted. Times are seconds. */
module HostCeiling {
  import opened Common

  const GIB: int := 0x4000_0000
  const MEM_RESERVE: int := 8 * GIB
  const COLD_RSS: int := 6 * GIB
  const PSI_LIMIT: real := 10.0
  const PRESSURE_SECONDS: real := 60.0
  const FRESH_SECONDS: real := 900.0
  const HISTORY_SECONDS: real := 86400.0
  const HISTORY_ITEMS: nat := 256

  datatype Sample = Sample(counts: map<Name, int>, unmanaged: int, rss: seq<int>,
                           memAvailable: int, sliceCurrent: int, sliceHigh: Option<int>,
                           memoryPsi: real, ioPsi: real, load: real, cpus: int)

  datatype RssItem = RssItem(at: real, rss: int)

  // ---- the 95th percentile by nearest rank ----

  function Insert(x: int, s: seq<int>): seq<int> {
    if s == [] || x <= s[0] then [x] + s else [s[0]] + Insert(x, s[1..])
  }

  function Sort(s: seq<int>): seq<int> {
    if s == [] then [] else Insert(s[0], Sort(s[1..]))
  }

  function Positive(s: seq<int>): seq<int> {
    if s == [] then [] else (if s[0] > 0 then [s[0]] else []) + Positive(s[1..])
  }

  /** How many values are at most v. */
  function CountAtMost(s: seq<int>, v: int): nat {
    if s == [] then 0 else (if s[0] <= v then 1 else 0) + CountAtMost(s[1..], v)
  }

  predicate Ascending(s: seq<int>) {
    forall i, j :: 0 <= i < j < |s| ==> s[i] <= s[j]
  }

  lemma {:induction false} InsertCounts(x: int, s: seq<int>, v: int)
    ensures |Insert(x, s)| == |s| + 1
    ensures CountAtMost(Insert(x, s), v) == CountAtMost(s, v) + if x <= v then 1 else 0
  {
    if s == [] || x <= s[0] {
      assert ([x] + s)[1..] == s;
    } else {
      InsertCounts(x, s[1..], v);
      assert ([s[0]] + Insert(x, s[1..]))[1..] == Insert(x, s[1..]);
    }
  }

  lemma {:induction false} InsertAscending(x: int, s: seq<int>)
    requires Ascending(s)
    ensures Ascending(Insert(x, s))
    ensures forall y :: y in Insert(x, s) <==> y == x || y in s
  {
    if s != [] && x > s[0] {
      InsertAscending(x, s[1..]);
      var t := Insert(x, s[1..]);
      assert forall y :: y in t ==> s[0] <= y;
      assert Insert(x, s) == [s[0]] + t;
      assert forall i :: 0 < i < |Insert(x, s)| ==> Insert(x, s)[i] == t[i - 1] && t[i - 1] in t;
    }
  }

  lemma {:induction false} SortFacts(s: seq<int>, v: int)
    ensures Ascending(Sort(s)) && |Sort(s)| == |s|
    ensures CountAtMost(Sort(s), v) == CountAtMost(s, v)
    ensures forall y :: y in Sort(s) <==> y in s
  {
    if s != [] {
      SortFacts(s[1..], v);
      InsertCounts(s[0], Sort(s[1..]), v);
      InsertAscending(s[0], Sort(s[1..]));
    }
  }

  lemma {:induction false} CountInSorted(s: seq<int>, i: nat, v: int)
    requires Ascending(s) && i < |s|
    ensures s[i] <= v ==> i + 1 <= CountAtMost(s, v)
    ensures v < s[i] ==> CountAtMost(s, v) <= i
    ensures CountAtMost(s, v) <= |s|
  {
    if i == 0 {
      CountBound(s[1..], v);
      if v < s[0] {
        forall y | y in s ensures v < y {
          var j :| 0 <= j < |s| && s[j] == y;
        }
        NoneAtMost(s, v);
      }
    } else {
      CountInSorted(s[1..], i - 1, v);
    }
  }

  lemma {:induction false} NoneAtMost(s: seq<int>, v: int)
    requires forall y :: y in s ==> v < y
    ensures CountAtMost(s, v) == 0
  {
    if s != [] {
      assert s[0] in s;
      assert forall y :: y in s[1..] ==> y in s;
      NoneAtMost(s[1..], v);
    }
  }

  lemma {:induction false} CountBound(s: seq<int>, v: int)
    ensures CountAtMost(s, v) <= |s|
  {
    if s != [] {
      CountBound(s[1..], v);
    }
  }

  lemma {:induction false} PositiveFacts(s: seq<int>)
    ensures forall y :: y in Positive(s) <==> y in s && y > 0
  {
    if s != [] {
      PositiveFacts(s[1..]);
    }
  }

  function Percentile95(values: seq<int>): (p: int)
    ensures 0 < p
  {
    var ordered := Sort(Positive(values));
    SortFacts(Positive(values), 0);
    PositiveFacts(values);
    if ordered == [] then COLD_RSS
    else
      var i := (95 * |ordered| + 99) / 100 - 1;
      assert ordered[i] in ordered;
      ordered[i]
  }

  /** The percentile is a sampled value, at least 95% of the positive samples are
      at most it, and fewer than 95% are at most anything smaller. */
  lemma Percentile95IsNearestRank(values: seq<int>, smaller: int)
    requires Positive(values) != [] && smaller < Percentile95(values)
    ensures Percentile95(values) in values
    ensures 95 * |Positive(values)| <= 100 * CountAtMost(Positive(values), Percentile95(values))
    ensures 100 * CountAtMost(Positive(values), smaller) < 95 * |Positive(values)|
  {
    var positive := Positive(values);
    var ordered, p := Sort(positive), Percentile95(values);
    SortFacts(positive, p);
    SortFacts(positive, smaller);
    PositiveFacts(values);
    var i := (95 * |ordered| + 99) / 100 - 1;
    CountInSorted(ordered, i, p);
    CountInSorted(ordered, i, smaller);
  }

  // ---- the limits ----

  function Current(sample: Sample): int { Sum(sample.counts, sample.counts.Keys) + sample.unmanaged }

  /** `math.floor(a / b)` for a positive b. */
  function FloorDiv(a: int, b: int): int
    requires 0 < b
  {
    a / b
  }

  function MemoryLimit(sample: Sample, cost: int): int
    requires 0 < cost
  {
    Max(0, Current(sample) + FloorDiv(sample.memAvailable - MEM_RESERVE, cost))
  }

  function SliceLimit(sample: Sample, cost: int): int
    requires 0 < cost && sample.sliceHigh.Some?
  {
    Max(0, Current(sample) + FloorDiv(85 * sample.sliceHigh.value - 100 * sample.sliceCurrent, 100 * cost))
  }

  predicate Pressured(sample: Sample) {
    || PSI_LIMIT <= sample.memoryPsi
    || PSI_LIMIT <= sample.ioPsi
    || 0.85 * sample.cpus as real <= sample.load
  }

  /** When the present spell of pressure began, as far as unbroken probing shows. */
  function PressureSince(since: Option<real>, lastProbeAt: Option<real>, now: real): real {
    if lastProbeAt.None? || !(0.0 <= now - lastProbeAt.value <= FRESH_SECONDS) then now
    else if since.None? || since.value > now then now
    else since.value
  }

  function PressureLimit(sample: Sample, since: real, now: real): int {
    Max(0, Current(sample) - if PRESSURE_SECONDS <= now - since then 1 else 0)
  }

  function Recent(history: seq<RssItem>, now: real): seq<RssItem> {
    if history == [] then []
    else (if 0.0 <= now - history[0].at <= HISTORY_SECONDS then [history[0]] else []) + Recent(history[1..], now)
  }

  function Stamped(rss: seq<int>, now: real): seq<RssItem> {
    if rss == [] then []
    else (if rss[0] > 0 then [RssItem(now, rss[0])] else []) + Stamped(rss[1..], now)
  }

  function NextHistory(history: seq<RssItem>, rss: seq<int>, now: real): (r: seq<RssItem>)
    ensures |r| <= HISTORY_ITEMS
  {
    var all := Recent(history, now) + Stamped(rss, now);
    if |all| <= HISTORY_ITEMS then all else all[|all| - HISTORY_ITEMS..]
  }

  lemma {:induction false} RecentItems(history: seq<RssItem>, now: real)
    ensures forall x :: x in Recent(history, now) <==> x in history && 0.0 <= now - x.at <= HISTORY_SECONDS
  {
    if history != [] {
      RecentItems(history[1..], now);
      assert history == [history[0]] + history[1..];
    }
  }

  lemma {:induction false} StampedItems(rss: seq<int>, now: real)
    ensures forall x :: x in Stamped(rss, now) <==> x.at == now && x.rss > 0 && x.rss in rss
  {
    if rss != [] {
      StampedItems(rss[1..], now);
      assert rss == [rss[0]] + rss[1..];
    }
  }

  /** The history holds nothing older than a day, nothing but earlier items and this
      sample's positive sizes, and drops the oldest first: all that fits of the sample. */
  lemma HistoryIsRecent(history: seq<RssItem>, rss: seq<int>, now: real)
    ensures var next := NextHistory(history, rss, now);
            && |next| <= 256
            && (forall x :: x in next ==> 0.0 <= now - x.at <= 86400.0)
            && (forall x :: x in next ==> x in history || (x.at == now && x.rss > 0 && x.rss in rss))
            && (|Stamped(rss, now)| <= 256 ==>
                  |Stamped(rss, now)| <= |next| && next[|next| - |Stamped(rss, now)|..] == Stamped(rss, now))
            && (|Recent(history, now)| + |Stamped(rss, now)| <= 256 ==>
                  forall x :: x in history && 0.0 <= now - x.at <= 86400.0 ==> x in next)
            && (256 < |Recent(history, now)| + |Stamped(rss, now)| ==> |next| == 256)
  {
    RecentItems(history, now);
    StampedItems(rss, now);
    var all, next := Recent(history, now) + Stamped(rss, now), NextHistory(history, rss, now);
    assert forall x :: x in next ==> x in all;
  }

  function Costs(history: seq<RssItem>): (r: seq<int>)
    ensures |r| == |history|
  {
    seq(|history|, i requires 0 <= i < |history| => history[i].rss)
  }

  function Ceiling(sample: Sample, cost: int, since: Option<real>, now: real): int
    requires 0 < cost
  {
    var memory := MemoryLimit(sample, cost);
    var slice := if sample.sliceHigh.Some? then Min(memory, SliceLimit(sample, cost)) else memory;
    if since.Some? then Min(slice, PressureLimit(sample, since.value, now)) else slice
  }

  lemma FloorDivRoom(a: int, b: int, n: int)
    requires 0 < b
    ensures n <= FloorDiv(a, b) <==> n * b <= a
  {
    DivMod(a, b);
    assert b * (a / b - n) == b * (a / b) - n * b;
    if n <= a / b {
      ProductNonNegative(b, a / b - n);
    } else {
      ProductNonNegative(b, n - a / b - 1);
      assert b * (n - a / b - 1) == n * b - b * (a / b) - b;
    }
  }

  /** A limit of max(0, present + room / cost) admits exactly as many slots above the
      present population as room pays for. */
  lemma LimitIsPaidFor(present: int, room: int, cost: int, n: int)
    requires 0 < cost && 0 < n
    ensures n <= Max(0, present + FloorDiv(room, cost)) <==> (n - present) * cost <= room
  {
    FloorDivRoom(room, cost, n - present);
  }

  lemma MemoryIsPaidFor(sample: Sample, cost: int, n: int)
    requires 0 < cost && 0 < n
    ensures n <= MemoryLimit(sample, cost) <==> (n - Current(sample)) * cost <= sample.memAvailable - MEM_RESERVE
  {
    hide Current, FloorDiv;
    LimitIsPaidFor(Current(sample), sample.memAvailable - MEM_RESERVE, cost, n);
  }

  lemma SliceIsPaidFor(sample: Sample, cost: int, n: int)
    requires 0 < cost && sample.sliceHigh.Some? && 0 < n
    ensures n <= SliceLimit(sample, cost)
            <==> 100 * ((n - Current(sample)) * cost + sample.sliceCurrent) <= 85 * sample.sliceHigh.value
  {
    hide Current, FloorDiv;
    LimitIsPaidFor(Current(sample), 85 * sample.sliceHigh.value - 100 * sample.sliceCurrent, 100 * cost, n);
    HundredTimes(n - Current(sample), cost);
  }

  lemma HundredTimes(extra: int, cost: int)
    ensures extra * (100 * cost) == 100 * (extra * cost)
  {
  }

  lemma CeilingWithinLimits(sample: Sample, cost: int, since: Option<real>, now: real)
    requires 0 < cost
    ensures var ceiling := Ceiling(sample, cost, since, now);
            && 0 <= ceiling <= MemoryLimit(sample, cost)
            && (sample.sliceHigh.Some? ==> ceiling <= SliceLimit(sample, cost))
            && (since.Some? ==> ceiling <= Max(0, Current(sample)))
  {
    hide Current, FloorDiv;
  }

  /** The slots above the present population are covered. */
  ghost predicate PaidFor(sample: Sample, cost: int, since: Option<real>, extra: int) {
    && extra * cost <= sample.memAvailable - MEM_RESERVE
    && (sample.sliceHigh.Some? ==> 100 * (extra * cost + sample.sliceCurrent) <= 85 * sample.sliceHigh.value)
    && (since.Some? ==> extra <= 0)
  }

  /** Every slot above the present population is paid for at the percentile cost,
      out of memory beyond the reserve and out of the slice's 85%; under pressure
      there is none. */
  lemma CeilingIsPaidFor(sample: Sample, cost: int, since: Option<real>, now: real)
    requires 0 < cost
    ensures var ceiling := Ceiling(sample, cost, since, now);
            0 <= ceiling && (0 < ceiling ==> PaidFor(sample, cost, since, ceiling - Current(sample)))
  {
    hide Ceiling, MemoryLimit, SliceLimit, Current;
    var ceiling := Ceiling(sample, cost, since, now);
    CeilingWithinLimits(sample, cost, since, now);
    if ceiling > 0 {
      MemoryIsPaidFor(sample, cost, ceiling);
      if sample.sliceHigh.Some? {
        SliceIsPaidFor(sample, cost, ceiling);
      }
    }
  }

  // ---- the pressure clock over a run of probes ----

  /** A probe either measured the host or failed. */
  datatype Probe = Seen(at: real, pressured: bool) | Lost

  /** The clock's two fields in the state file. */
  datatype Clock = Clock(since: Option<real>, lastProbeAt: Option<real>)

  function Tick(clock: Clock, probe: Probe): Clock {
    match probe
    case Lost => Clock(None, None)
    case Seen(at, pressured) =>
      Clock(if pressured then Some(PressureSince(clock.since, clock.lastProbeAt, at)) else None, Some(at))
  }

  /** The clock after a run of probes from a fresh state file. */
  function ClockAfter(run: seq<Probe>): Clock {
    if run == [] then Clock(None, None) else Tick(ClockAfter(run[..|run| - 1]), run[|run| - 1])
  }

  predicate Hot(run: seq<Probe>, i: nat) {
    i < |run| && run[i].Seen? && run[i].pressured
  }

  /** Probe i followed the one before it within the freshness bound. */
  predicate Linked(run: seq<Probe>, i: nat) {
    0 < i < |run| && run[i - 1].Seen? && run[i].Seen? && 0.0 <= run[i].at - run[i - 1].at <= 900.0
  }

  /** Probes m.. of the run all saw pressure, with no probing gap past the freshness bound. */
  predicate Spell(run: seq<Probe>, m: nat) {
    && m < |run|
    && (forall i: nat :: m <= i < |run| ==> Hot(run, i))
    && (forall i: nat :: m < i < |run| ==> Linked(run, i))
  }

  lemma SpellGrows(run: seq<Probe>, m: nat)
    requires |run| > 1 && Hot(run, |run| - 1) && Linked(run, |run| - 1)
    ensures m < |run| - 1 ==> (Spell(run, m) <==> Spell(run[..|run| - 1], m))
  {
    var n := |run| - 1;
    var short := run[..n];
    forall i: nat | i < n ensures Hot(run, i) == Hot(short, i) && Linked(run, i) == Linked(short, i) {
    }
    if Spell(run, m) && m < n {
      forall i: nat | m <= i < n ensures Hot(short, i) {
        assert Hot(run, i);
      }
      forall i: nat | m < i < n ensures Linked(short, i) {
        assert Linked(run, i);
      }
    }
  }

  lemma SpellNeeds(run: seq<Probe>, n: nat)
    requires n == |run| - 1
    ensures n > 0 && Spell(run, n - 1) ==> Hot(run, n - 1) && Linked(run, n)
  {
  }

  /** The clock starts with the longest spell that ends in the last probe. */
  lemma {:induction false} SpellStart(run: seq<Probe>) returns (m: nat)
    requires run != [] && Hot(run, |run| - 1)
    ensures Spell(run, m) && Hot(run, m)
    ensures ClockAfter(run).since == Some(run[m].at) && run[m].at <= run[|run| - 1].at
    ensures m > 0 ==> !Spell(run, m - 1)
  {
    var n := |run| - 1;
    if n > 0 && Linked(run, n) && Hot(run, n - 1) {
      m := SpellStart(run[..n]);
      SpellGrows(run, m);
      if m > 0 {
        SpellGrows(run, m - 1);
      }
      assert ClockAfter(run[..n]).lastProbeAt == Some(run[n - 1].at);
    } else {
      m := n;
      SpellNeeds(run, n);
    }
  }

  lemma {:induction false} SpellOrdered(run: seq<Probe>, m: nat, k: nat)
    requires Spell(run, m) && m <= k < |run|
    ensures Spell(run, k) && run[m].Seen? && run[k].Seen? && run[m].at <= run[k].at
  {
    assert Hot(run, m) && Hot(run, k);
    if m < k {
      SpellOrdered(run, m, k - 1);
      assert Linked(run, k);
    }
  }

  /** Pressure seen at every probe over at least 60 seconds, with no gap in the probing. */
  predicate LongSpell(run: seq<Probe>, m: nat) {
    Spell(run, m) && Hot(run, m) && Hot(run, |run| - 1) && 60.0 <= run[|run| - 1].at - run[m].at
  }

  /** A slot is taken away exactly when pressure has lasted. */
  lemma SlotTakenExactlyAfterASpell(run: seq<Probe>)
    requires run != [] && Hot(run, |run| - 1)
    ensures ClockAfter(run).since.Some?
    ensures 60.0 <= run[|run| - 1].at - ClockAfter(run).since.value <==> exists m :: LongSpell(run, m)
  {
    var n := |run| - 1;
    var m := SpellStart(run);
    assert Hot(run, m);
    if exists k :: LongSpell(run, k) {
      var k :| LongSpell(run, k);
      if k < m {
        SpellOrdered(run, k, m - 1);
      } else {
        SpellOrdered(run, m, k);
      }
    } else {
      assert !LongSpell(run, m);
    }
  }

  // ---- the ceiling over a run of probes ----

  /** n slots are paid for at this cost, out of memory beyond the reserve and out of the
      slice's 85%, and under pressure they are no more than are taken now, less one once
      the run of probes, this one included, has seen pressure for long enough. */
  ghost predicate SlotsFit(sample: Sample, cost: int, run: seq<Probe>, n: int) {
    var present := Sum(sample.counts, sample.counts.Keys) + sample.unmanaged;
    && (n - present) * cost <= sample.memAvailable - 8 * GIB
    && (sample.sliceHigh.Some? ==> 100 * ((n - present) * cost + sample.sliceCurrent) <= 85 * sample.sliceHigh.value)
    && (10.0 <= sample.memoryPsi || 10.0 <= sample.ioPsi || 0.85 * sample.cpus as real <= sample.load ==>
          n <= present - if exists m :: LongSpell(run, m) then 1 else 0)
  }

  /** The slot pressure takes. */
  lemma PressureTakesSlot(sample: Sample, run: seq<Probe>, now: real, n: int)
    requires 0 < n && run != [] && run[|run| - 1] == Seen(now, true)
    ensures ClockAfter(run).since.Some?
    ensures n <= PressureLimit(sample, ClockAfter(run).since.value, now)
            <==> n <= Current(sample) - if exists m :: LongSpell(run, m) then 1 else 0
  {
    hide Current, LongSpell, ClockAfter;
    SlotTakenExactlyAfterASpell(run);
  }

  lemma NoClockWithoutPressure(run: seq<Probe>, now: real)
    requires run != [] && run[|run| - 1] == Seen(now, false)
    ensures ClockAfter(run).since.None?
  {
  }

  /** The ceiling admits a slot exactly when memory and slice pay for it and pressure,
      as the run of probes has seen it, leaves it. */
  lemma CeilingExactly(sample: Sample, cost: int, run: seq<Probe>, now: real, n: int)
    requires 0 < cost && 0 < n && run != [] && run[|run| - 1] == Seen(now, Pressured(sample))
    ensures n <= Ceiling(sample, cost, ClockAfter(run).since, now) <==> SlotsFit(sample, cost, run, n)
  {
    hide MemoryLimit, SliceLimit, PressureLimit, ClockAfter, LongSpell, Sum;
    MemoryIsPaidFor(sample, cost, n);
    if sample.sliceHigh.Some? {
      SliceIsPaidFor(sample, cost, n);
    }
    if Pressured(sample) {
      PressureTakesSlot(sample, run, now, n);
    } else {
      NoClockWithoutPressure(run, now);
    }
  }

  lemma {:induction false} RunSnoc(run: seq<Probe>, probe: Probe)
    ensures ClockAfter(run + [probe]) == Tick(ClockAfter(run), probe)
  {
    assert (run + [probe])[..|run|] == run;
  }

  /** A ceiling that follows from all the probes since a fresh state file. */
  ghost predicate FollowsProbes(sample: Sample, cost: int, before: Clock, now: real, ceiling: int) {
    && 0 <= ceiling
    && forall run: seq<Probe>, n: int :: ClockAfter(run) == before && 0 < n ==>
         (n <= ceiling <==> SlotsFit(sample, cost, run + [Seen(now, Pressured(sample))], n))
  }

  lemma CeilingFollowsProbes(sample: Sample, cost: int, before: Clock, now: real)
    requires 0 < cost
    ensures var after := Tick(before, Seen(now, Pressured(sample)));
            FollowsProbes(sample, cost, before, now, Ceiling(sample, cost, after.since, now))
  {
    hide Ceiling, SlotsFit, ClockAfter, Pressured;
    CeilingIsPaidFor(sample, cost, Tick(before, Seen(now, Pressured(sample))).since, now);
    forall run: seq<Probe>, n: int | ClockAfter(run) == before && 0 < n
      ensures n <= Ceiling(sample, cost, Tick(before, Seen(now, Pressured(sample))).since, now)
              <==> SlotsFit(sample, cost, run + [Seen(now, Pressured(sample))], n)
    {
      RunSnoc(run, Seen(now, Pressured(sample)));
      CeilingExactly(sample, cost, run + [Seen(now, Pressured(sample))], now, n);
    }
  }

  // ---- what the history is made of ----

  /** The history keeps its order: what is kept of two parts in a row is what is kept
      of the one and then of the other. */
  lemma {:induction false} RecentKeepsOrder(older: seq<RssItem>, newer: seq<RssItem>, now: real)
    ensures Recent(older + newer, now) == Recent(older, now) + Recent(newer, now)
  {
    if older == [] {
      assert older + newer == newer;
    } else {
      assert (older + newer)[1..] == older[1..] + newer;
      RecentKeepsOrder(older[1..], newer, now);
    }
  }

  lemma {:induction false} StampedKeepsOrder(first: seq<int>, second: seq<int>, now: real)
    ensures Stamped(first + second, now) == Stamped(first, now) + Stamped(second, now)
  {
    if first == [] {
      assert first + second == second;
    } else {
      assert (first + second)[1..] == first[1..] + second;
      StampedKeepsOrder(first[1..], second, now);
    }
  }

  /** Without a positive sample a worker is taken to cost six gibibytes. */
  lemma ColdHostCost(values: seq<int>)
    requires forall v :: v in values ==> v <= 0
    ensures Percentile95(values) == 6 * GIB
  {
    PositiveFacts(values);
    if Positive(values) != [] {
      assert Positive(values)[0] in Positive(values);
    }
  }
}
