/** compatible_history and measured_rate of src/dashboard.rs: the part of a window's
    recorded samples from which its consumption may be measured. Times are
    milliseconds. */
module BurnHistory {
  import opened Common
  import opened Controller

  datatype Sample = Sample(observedAt: int, used: real, resetsAt: int)

  datatype Query = Query(current: Sample, now: int, lookback: nat, staleAfter: nat)

  // ---- sorting and dropping repeats ----

  /** Puts x after every sample that is not later. */
  function Insert(x: Sample, s: seq<Sample>): seq<Sample> {
    if s == [] then [x]
    else if s[|s| - 1].observedAt <= x.observedAt then s + [x]
    else Insert(x, s[..|s| - 1]) + [s[|s| - 1]]
  }

  /** A stable sort by time. */
  function Sort(s: seq<Sample>): seq<Sample> {
    if s == [] then [] else Insert(s[|s| - 1], Sort(s[..|s| - 1]))
  }

  predicate Repeats(a: Sample, b: Sample) {
    a.observedAt == b.observedAt && a.used == b.used && SameGeneration(a.resetsAt, b.resetsAt)
  }

  /** Drops each sample that repeats the one kept before it. */
  function Dedup(s: seq<Sample>): seq<Sample> {
    if s == [] then []
    else
      var kept, x := Dedup(s[..|s| - 1]), s[|s| - 1];
      if kept != [] && Repeats(x, kept[|kept| - 1]) then kept else kept + [x]
  }

  /** The same reading again: same time and fraction, and the same reset to a minute. */
  predicate SameReading(a: Sample, b: Sample) {
    a.observedAt == b.observedAt && a.used == b.used && -61000 < a.resetsAt - b.resetsAt < 61000
  }

  lemma RepeatsReading(a: Sample, b: Sample)
    ensures Repeats(a, b) <==> SameReading(a, b)
  {
  }

  /** No two samples kept in a row are the same reading, every sample kept was given, and
      every one given is the same reading as one kept. */
  ghost predicate KeepsReadings(s: seq<Sample>, kept: seq<Sample>) {
    && (forall i :: 0 < i < |kept| ==> !SameReading(kept[i], kept[i - 1]))
    && (forall x :: x in kept ==> x in s)
    && forall x :: x in s ==> HasReading(kept, x)
  }

  /** Some sample kept is the same reading. */
  ghost predicate HasReading(kept: seq<Sample>, x: Sample) { exists y :: y in kept && SameReading(x, y) }

  lemma KeepsLast(s: seq<Sample>, kept: seq<Sample>, x: Sample)
    requires KeepsReadings(s, kept) && kept != [] && SameReading(x, kept[|kept| - 1])
    ensures KeepsReadings(s + [x], kept)
  {
    hide SameReading;
    assert kept[|kept| - 1] in kept && HasReading(kept, x);
    forall z | z in s + [x] ensures HasReading(kept, z) {
      assert z in s || z == x;
    }
  }

  lemma HasMoreReadings(kept: seq<Sample>, x: Sample, z: Sample)
    requires HasReading(kept, z)
    ensures HasReading(kept + [x], z)
  {
    hide SameReading;
    var y :| y in kept && SameReading(z, y);
    assert y in kept + [x];
  }

  lemma KeepsOneMore(s: seq<Sample>, kept: seq<Sample>, x: Sample)
    requires KeepsReadings(s, kept) && SameReading(x, x) && (kept == [] || !SameReading(x, kept[|kept| - 1]))
    ensures KeepsReadings(s + [x], kept + [x])
  {
    assert x in kept + [x] && HasReading(kept + [x], x);
    hide SameReading, HasReading;
    forall z | z in s + [x] ensures HasReading(kept + [x], z) {
      if z in s {
        assert HasReading(kept, z);
        HasMoreReadings(kept, x, z);
      }
    }
    forall z | z in kept + [x] ensures z in s + [x] {
      assert z in kept || z == x;
    }
  }

  lemma {:induction false} DedupKeepsReadings(s: seq<Sample>)
    ensures KeepsReadings(s, Dedup(s))
  {
    if s != [] {
      var n := |s| - 1;
      var before := Dedup(s[..n]);
      DedupKeepsReadings(s[..n]);
      assert SameReading(s[n], s[n]) && s == s[..n] + [s[n]];
      hide KeepsReadings, Repeats, SameReading;
      if before != [] {
        RepeatsReading(s[n], before[|before| - 1]);
      }
      if before != [] && SameReading(s[n], before[|before| - 1]) {
        KeepsLast(s[..n], before, s[n]);
      } else {
        KeepsOneMore(s[..n], before, s[n]);
      }
    }
  }

  /** The samples up to a time. */
  function UpTo(s: seq<Sample>, t: int): seq<Sample> {
    if s == [] then []
    else UpTo(s[..|s| - 1], t) + if s[|s| - 1].observedAt <= t then [s[|s| - 1]] else []
  }

  predicate SortedByTime(s: seq<Sample>) {
    forall i, j :: 0 <= i < j < |s| ==> s[i].observedAt <= s[j].observedAt
  }

  lemma {:induction false} InsertSorts(x: Sample, s: seq<Sample>)
    requires SortedByTime(s)
    ensures SortedByTime(Insert(x, s))
    ensures forall y :: y in Insert(x, s) <==> y == x || y in s
  {
    if s != [] && x.observedAt < s[|s| - 1].observedAt {
      var n := |s| - 1;
      InsertSorts(x, s[..n]);
      var front := Insert(x, s[..n]);
      forall i | 0 <= i < |front| ensures front[i].observedAt <= s[n].observedAt {
        assert front[i] in front;
      }
      assert s == s[..n] + [s[n]];
    }
  }

  lemma {:induction false} SortSorts(s: seq<Sample>)
    ensures SortedByTime(Sort(s)) && forall y :: y in Sort(s) <==> y in s
  {
    if s != [] {
      SortSorts(s[..|s| - 1]);
      InsertSorts(s[|s| - 1], Sort(s[..|s| - 1]));
      assert s == s[..|s| - 1] + [s[|s| - 1]];
    }
  }

  /** r ends with x, or with a sample that x repeats. */
  predicate EndsWith(r: seq<Sample>, x: Sample) {
    r != [] && var last := r[|r| - 1];
               last.observedAt == x.observedAt && last.used == x.used && SameGeneration(x.resetsAt, last.resetsAt)
  }

  lemma DedupEnds(s: seq<Sample>, x: Sample)
    ensures EndsWith(Dedup(s + [x]), x)
  {
    assert SameGeneration(x.resetsAt, x.resetsAt);
    hide SameGeneration;
    assert (s + [x])[..|s|] == s;
  }

  lemma DedupDropsNoOther(s: seq<Sample>, y: Sample, t: int)
    requires t < y.observedAt
    ensures UpTo(Dedup(s + [y]), t) == UpTo(Dedup(s), t)
  {
    assert (s + [y])[..|s|] == s;
    DropLater(Dedup(s), y, t);
  }

  /** The samples up to x's time end with x itself, or with one that x repeats. */
  lemma {:induction false} InsertedIsLast(x: Sample, s: seq<Sample>)
    ensures EndsWith(UpTo(Dedup(Insert(x, s)), x.observedAt), x)
  {
    hide Dedup, UpTo, EndsWith;
    if s == [] || s[|s| - 1].observedAt <= x.observedAt {
      assert Insert(x, s) == s + [x];
      DedupEnds(s, x);
      LastKept(Dedup(s + [x]), x);
    } else {
      var n := |s| - 1;
      InsertedIsLast(x, s[..n]);
      DedupDropsNoOther(Insert(x, s[..n]), s[n], x.observedAt);
    }
  }

  lemma LastKept(s: seq<Sample>, x: Sample)
    requires EndsWith(s, x)
    ensures EndsWith(UpTo(s, x.observedAt), x)
  {
  }

  lemma DropLater(s: seq<Sample>, later: Sample, t: int)
    requires t < later.observedAt
    ensures UpTo(s + [later], t) == UpTo(s, t)
  {
    assert (s + [later])[..|s|] == s;
  }

  // ---- the compatible suffix ----

  predicate Usable(q: Query, s: Sample) {
    && 0 <= Seconds(q.now - s.observedAt)
    && Seconds(q.current.observedAt - s.observedAt) <= q.lookback
    && 0.0 <= s.used <= 1.0
    && SameGeneration(s.resetsAt, q.current.resetsAt)
  }

  /** One sample follows another soon enough, and usage did not fall. */
  predicate Linked(q: Query, a: Sample, b: Sample) {
    && 0 < Seconds(b.observedAt - a.observedAt) <= q.staleAfter
    && a.used <= b.used
  }

  /** Samples m.. are all usable and each follows the one before it. */
  predicate Chain(q: Query, s: seq<Sample>, m: nat) {
    && (forall i :: m <= i < |s| ==> Usable(q, s[i]))
    && (forall i :: m < i < |s| ==> Linked(q, s[i - 1], s[i]))
  }

  predicate LongestChain(q: Query, s: seq<Sample>, m: nat) {
    m <= |s| && Chain(q, s, m) && (m > 0 ==> !Chain(q, s, m - 1))
  }

  /** At most a second past now, within the lookback, a fraction, and of the same reset
      to a minute; in milliseconds. */
  predicate Fits(q: Query, s: Sample) {
    && s.observedAt - q.now < 1000
    && q.current.observedAt - s.observedAt < 1000 * (q.lookback + 1)
    && 0.0 <= s.used <= 1.0
    && -61000 < s.resetsAt - q.current.resetsAt < 61000
  }

  /** At least a second apart, no further than the staleness bound, and usage did not fall. */
  predicate Succeeds(q: Query, a: Sample, b: Sample) {
    1000 <= b.observedAt - a.observedAt < 1000 * (q.staleAfter + 1) && a.used <= b.used
  }

  /** All samples of the longest chain fit and succeed one another, and whatever comes
      before it does not fit, or is not what its first sample succeeds. */
  lemma ChainInFigures(q: Query, s: seq<Sample>, m: nat)
    requires LongestChain(q, s, m)
    ensures forall i :: m <= i < |s| ==> Fits(q, s[i])
    ensures forall i :: m < i < |s| ==> Succeeds(q, s[i - 1], s[i])
    ensures m > 0 && Fits(q, s[m - 1]) ==> m < |s| && !Succeeds(q, s[m - 1], s[m])
  {
    forall i | 0 <= i < |s| ensures Usable(q, s[i]) <==> Fits(q, s[i]) {
    }
    forall i | 0 < i < |s| ensures Linked(q, s[i - 1], s[i]) <==> Succeeds(q, s[i - 1], s[i]) {
    }
    hide Usable, Linked, Fits, Succeeds;
    if m > 0 {
      ChainBefore(q, s, m);
    }
  }

  lemma ChainBefore(q: Query, s: seq<Sample>, m: nat)
    requires 0 < m <= |s| && Chain(q, s, m)
    ensures Chain(q, s, m - 1) <==> Usable(q, s[m - 1]) && (m < |s| ==> Linked(q, s[m - 1], s[m]))
  {
    hide Usable, Linked;
  }

  lemma ChainSnoc(q: Query, s: seq<Sample>, x: Sample, m: nat)
    requires m <= |s|
    ensures Chain(q, s + [x], m) <==> Chain(q, s, m) && Usable(q, x) && (m < |s| ==> Linked(q, s[|s| - 1], x))
  {
    var t := s + [x];
    assert t[|s|] == x && forall i :: 0 <= i < |s| ==> t[i] == s[i];
    if Chain(q, t, m) {
      forall i | m <= i < |s| ensures Usable(q, s[i]) {
        assert Usable(q, t[i]);
      }
      forall i | m < i < |s| ensures Linked(q, s[i - 1], s[i]) {
        assert Linked(q, t[i - 1], t[i]);
      }
    }
  }

  /** How the longest chain moves when a sample arrives. */
  lemma LongestSnoc(q: Query, s: seq<Sample>, x: Sample, m: nat)
    requires LongestChain(q, s, m)
    ensures !Usable(q, x) ==> LongestChain(q, s + [x], |s| + 1)
    ensures Usable(q, x) && (m == |s| || Linked(q, s[|s| - 1], x)) ==> LongestChain(q, s + [x], m)
    ensures Usable(q, x) && m < |s| && !Linked(q, s[|s| - 1], x) ==> LongestChain(q, s + [x], |s|)
  {
    hide Chain, Usable, Linked;
    ChainSnoc(q, s, x, m);
    ChainSnoc(q, s, x, |s|);
    if m > 0 {
      ChainSnoc(q, s, x, m - 1);
    }
    if |s| > 0 {
      ChainSnoc(q, s, x, |s| - 1);
    }
    EmptyChain(q, s + [x]);
    EmptyChain(q, s);
  }

  lemma EmptyChain(q: Query, s: seq<Sample>)
    ensures Chain(q, s, |s|)
  {
  }

  /** The samples a query considers: recorded and current, in time order, up to the
      current time, repeats dropped. */
  function Considered(q: Query, recorded: seq<Sample>): seq<Sample> {
    UpTo(Dedup(Sort(recorded + [q.current])), q.current.observedAt)
  }

  /** The longest run of compatible samples that ends at the current time. */
  method CompatibleHistory(q: Query, recorded: seq<Sample>) returns (compatible: seq<Sample>)
    ensures var considered := Considered(q, recorded);
            && |compatible| <= |considered| && compatible == considered[|considered| - |compatible|..]
            && LongestChain(q, considered, |considered| - |compatible|)
  {
    hide Usable, Linked, Sort, Dedup, LongestChain;
    var samples := Dedup(Sort(recorded + [q.current]));
    compatible := [];
    ghost var m: nat := 0;
    var previous: Option<Sample> := None;
    ghost var considered: seq<Sample> := [];
    assert LongestChain(q, considered, 0) by {
      EmptyChain(q, considered);
      ChainIsLongest(q, considered);
    }
    var n := 0;
    while n < |samples|
      invariant n <= |samples| && considered == UpTo(samples[..n], q.current.observedAt)
      invariant m <= |considered| && LongestChain(q, considered, m) && compatible == considered[m..]
      invariant previous.None? <==> compatible == []
      invariant compatible != [] ==> previous == Some(considered[|considered| - 1])
    {
      assert samples[..n + 1][..n] == samples[..n];
      var sample := samples[n];
      n := n + 1;
      if sample.observedAt > q.current.observedAt {
        continue;
      }
      LongestSnoc(q, considered, sample, m);
      if !Usable(q, sample) {
        compatible, previous, m := [], None, |considered| + 1;
      } else {
        if previous.Some? && !Linked(q, previous.value, sample) {
          compatible, m := [], |considered|;
        }
        compatible, previous := compatible + [sample], Some(sample);
      }
      considered := considered + [sample];
    }
    assert samples[..n] == samples;
    assert considered == Considered(q, recorded) && m == |considered| - |compatible|;
  }

  lemma ChainIsLongest(q: Query, s: seq<Sample>)
    requires Chain(q, s, 0)
    ensures LongestChain(q, s, 0)
  {
  }

  // ---- the rate ----

  datatype Measure = NoHistory | TooShort | Invalid | Rate(perHour: real, seconds: int)

  lemma ConsideredEnds(q: Query, recorded: seq<Sample>)
    ensures EndsWith(Considered(q, recorded), q.current)
  {
    assert (recorded + [q.current])[..|recorded|] == recorded;
    hide UpTo, Dedup, EndsWith;
    InsertedIsLast(q.current, Sort(recorded));
  }

  /** The chain's first sample bounds the rate from below by zero. */
  lemma BaseOfChain(q: Query, s: seq<Sample>, m: nat)
    requires EndsWith(s, q.current) && LongestChain(q, s, m)
    ensures m < |s| <==> Usable(q, q.current)
    ensures m < |s| ==> s[m].used <= q.current.used && Seconds(q.current.observedAt - s[m].observedAt) <= q.lookback
  {
    LatestDecides(q, s, m);
    if m < |s| {
      ChainRises(q, s, m, |s| - 1);
    }
  }

  /** What is measured from the first sample of the longest chain. */
  function MeasuredFrom(q: Query, base: Sample, minimum: nat): Measure {
    var seconds := Seconds(q.current.observedAt - base.observedAt);
    if seconds <= 0 || seconds < minimum then TooShort
    else Rate((q.current.used - base.used) * 100.0 * 3600.0 / seconds as real, seconds)
  }

  /** Sustained over the seconds reported, the rate is what the current sample rose above
      the base, in percent; it is given from the minimum of whole seconds on. */
  lemma RateCoversRise(q: Query, base: Sample, minimum: nat)
    ensures var m := MeasuredFrom(q, base, minimum);
            && (m.Rate? ==>
                  && m.perHour * (m.seconds as real / 3600.0) == 100.0 * (q.current.used - base.used)
                  && 1000 * m.seconds <= q.current.observedAt - base.observedAt < 1000 * (m.seconds + 1))
            && (m.TooShort? <==> q.current.observedAt - base.observedAt < 1000 * Max(1, minimum))
            && (m.Rate? || m.TooShort?)
  {
    var seconds := Seconds(q.current.observedAt - base.observedAt);
    if 0 < seconds {
      QuotientBack((q.current.used - base.used) * 100.0 * 3600.0, seconds as real);
    }
  }

  lemma QuotientBack(a: real, b: real)
    requires 0.0 < b
    ensures a / b * b == a
  {
  }

  lemma ChainWidens(q: Query, s: seq<Sample>, m: nat, k: nat)
    requires Chain(q, s, m) && m <= k
    ensures Chain(q, s, k)
  {
  }

  /** There is only one longest chain, so `MeasuredRate` promises one answer. */
  lemma LongestChainIsOne(q: Query, s: seq<Sample>, m: nat, n: nat)
    requires LongestChain(q, s, m) && LongestChain(q, s, n)
    ensures m == n
  {
    hide Chain;
    if m < n {
      ChainWidens(q, s, m, n - 1);
    } else if n < m {
      ChainWidens(q, s, n, m - 1);
    }
  }

  /** The rate from the first sample of the longest chain, in percent per hour, unless
      that sample is too recent; never negative and never over more than the lookback.
      History in which usage fell is cut off, never reported as invalid. */
  method MeasuredRate(q: Query, recorded: seq<Sample>, minimum: nat) returns (r: Measure)
    ensures r.NoHistory? <==> !Usable(q, q.current)
    ensures !r.NoHistory? ==>
              exists m: nat :: m < |Considered(q, recorded)| && LongestChain(q, Considered(q, recorded), m)
                               && r == MeasuredFrom(q, Considered(q, recorded)[m], minimum)
    ensures r.Rate? ==> 0.0 <= r.perHour && 0 < r.seconds && minimum <= r.seconds <= q.lookback
    ensures !r.Invalid?
  {
    hide Considered, Usable, EndsWith, LongestChain;
    var samples := CompatibleHistory(q, recorded);
    ghost var m: nat := |Considered(q, recorded)| - |samples|;
    ConsideredEnds(q, recorded);
    BaseOfChain(q, Considered(q, recorded), m);
    if samples == [] {
      return NoHistory;
    }
    var base := samples[0];
    assert base == Considered(q, recorded)[m];
    var seconds := Seconds(q.current.observedAt - base.observedAt);
    if seconds <= 0 || seconds < minimum {
      return TooShort;
    }
    var rate := (q.current.used - base.used) * 100.0 * 3600.0 / seconds as real;
    QuotientNonNegative((q.current.used - base.used) * 100.0 * 3600.0, seconds as real);
    if rate < 0.0 {
      return Invalid;
    }
    r := Rate(rate, seconds);
  }

  lemma QuotientNonNegative(a: real, b: real)
    requires 0.0 <= a && 0.0 < b
    ensures 0.0 <= a / b
  {
  }

  lemma LastAlone(q: Query, s: seq<Sample>)
    requires s != []
    ensures Chain(q, s, |s| - 1) <==> Usable(q, s[|s| - 1])
  {
  }

  lemma LatestDecides(q: Query, s: seq<Sample>, m: nat)
    requires s != [] && LongestChain(q, s, m)
    ensures m < |s| <==> Usable(q, s[|s| - 1])
  {
    hide Chain, Usable;
    LastAlone(q, s);
    if m < |s| {
      ChainWidens(q, s, m, |s| - 1);
    }
  }

  lemma {:induction false} ChainRises(q: Query, s: seq<Sample>, m: nat, i: nat)
    requires m <= i < |s| && Chain(q, s, m)
    ensures s[m].used <= s[i].used && Usable(q, s[m])
  {
    if m < i {
      ChainRises(q, s, m, i - 1);
      assert Linked(q, s[i - 1], s[i]);
    }
  }
}
