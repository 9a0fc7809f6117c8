/** update_saturation of scripts/zai-collector.py: counters scraped from every replica
    become at most one interval measurement per stable membership. */
module Saturation {
  import opened Common

  datatype Field = Requests | Completed | Retries | Capacity | Concurrency

  /** One replica's scrape. `rejected` is its count of upstream 429 responses, where
      the replica reports one. */
  datatype Reading = Reading(at: real, start: real, requests: nat, completed: nat, retries: nat, capacity: nat,
                             concurrency: nat, classified: bool, rejected: Option<nat>)
  {
    function Count(f: Field): nat {
      match f
      case Requests => requests
      case Completed => completed
      case Retries => retries
      case Capacity => capacity
      case Concurrency => concurrency
    }
  }

  type Scrape = map<Name, Reading>

  datatype Limits = Limits(minimum: real, maximum: real, minimumAttempts: int)

  datatype Interval = Interval(completed: int, windowSeconds: int, attempts: int,
                               concurrencyFraction: Option<real>, rejectedFraction: Option<real>)

  // ---- comparing two scrapes ----

  /** The later reading is of the same process, no counter fell, and no more than the
      maximum interval has passed. */
  predicate Continues(earlier: Reading, current: Reading, maximum: real) {
    && current.start == earlier.start
    && earlier.requests <= current.requests && earlier.completed <= current.completed && earlier.retries <= current.retries
    && earlier.capacity <= current.capacity && earlier.concurrency <= current.concurrency
    && 0.0 < current.at - earlier.at <= maximum
  }

  predicate Comparable(previous: Scrape, readings: Scrape, maximum: real) {
    && previous.Keys == readings.Keys && readings != map[]
    && forall k :: k in readings ==> Continues(previous[k], readings[k], maximum)
  }

  predicate LongEnough(previous: Scrape, readings: Scrape, minimum: real)
    requires previous.Keys == readings.Keys
  {
    forall k :: k in readings ==> minimum <= readings[k].at - previous[k].at
  }

  function Deltas(previous: Scrape, readings: Scrape, f: Field): (d: map<Name, int>)
    requires previous.Keys == readings.Keys
    ensures d.Keys == readings.Keys
  {
    map k | k in readings :: readings[k].Count(f) - previous[k].Count(f)
  }

  function Total(previous: Scrape, readings: Scrape, f: Field): int
    requires previous.Keys == readings.Keys
  {
    Sum(Deltas(previous, readings, f), readings.Keys)
  }

  function Attempts(previous: Scrape, readings: Scrape): int
    requires previous.Keys == readings.Keys
  {
    Total(previous, readings, Requests) - Total(previous, readings, Capacity) + Total(previous, readings, Retries)
  }

  /** The totals make sense together. */
  predicate Consistent(previous: Scrape, readings: Scrape)
    requires previous.Keys == readings.Keys
  {
    var attempts := Attempts(previous, readings);
    0 <= attempts && Total(previous, readings, Concurrency) <= attempts && Total(previous, readings, Completed) <= attempts
  }

  function Rejected(r: Reading): nat { if r.rejected.Some? then r.rejected.value else 0 }

  predicate RejectedKnown(previous: Scrape, readings: Scrape)
    requires previous.Keys == readings.Keys
  {
    forall k :: k in readings ==>
      readings[k].rejected.Some? && previous[k].rejected.Some? && previous[k].rejected.value <= readings[k].rejected.value
  }

  function RejectedTotal(previous: Scrape, readings: Scrape): int
    requires previous.Keys == readings.Keys
  {
    var d := map k | k in readings :: Rejected(readings[k]) - Rejected(previous[k]);
    Sum(d, readings.Keys)
  }

  function LongestElapsed(previous: Scrape, readings: Scrape, s: set<Name>): real
    requires previous.Keys == readings.Keys && s <= readings.Keys
  {
    if s == {} then 0.0
    else
      var k := Least(s);
      var rest := LongestElapsed(previous, readings, s - {k});
      var elapsed := readings[k].at - previous[k].at;
      if rest < elapsed then elapsed else rest
  }

  /** The nearest whole number, halves to the even one. */
  function RoundEven(x: real): int {
    var down := x.Floor;
    var part := x - down as real;
    if part < 0.5 then down else if part > 0.5 then down + 1 else if down % 2 == 0 then down else down + 1
  }

  function Measured(limits: Limits, previous: Scrape, readings: Scrape): Interval
    requires previous.Keys == readings.Keys
  {
    var attempts := Attempts(previous, readings);
    var counted := limits.minimumAttempts <= attempts && 0 < attempts;
    var classified := forall k :: k in readings ==> readings[k].classified && previous[k].classified;
    var rejected := RejectedTotal(previous, readings);
    Interval(Total(previous, readings, Completed), RoundEven(LongestElapsed(previous, readings, readings.Keys)), attempts,
             if classified && counted then Some(Total(previous, readings, Concurrency) as real / attempts as real) else None,
             if RejectedKnown(previous, readings) && 0 <= rejected <= attempts && counted
             then Some(rejected as real / attempts as real) else None)
  }

  predicate Emits(limits: Limits, previous: Scrape, readings: Scrape) {
    && Comparable(previous, readings, limits.maximum)
    && LongEnough(previous, readings, limits.minimum)
    && Consistent(previous, readings)
  }

  /** A short interval keeps its baseline; anything else starts a new one. */
  function NextBaseline(limits: Limits, previous: Scrape, readings: Scrape): Scrape {
    if Comparable(previous, readings, limits.maximum) && !LongEnough(previous, readings, limits.minimum) then previous
    else readings
  }

  class Collector {
    const limits: Limits
    var replicas: Scrape

    constructor (limits: Limits)
      ensures this.limits == limits && replicas == map[]
    {
      this.limits := limits;
      replicas := map[];
    }

    method CompareAll(readings: Scrape) returns (comparable: bool, long: bool)
      ensures comparable == Comparable(replicas, readings, limits.maximum)
      ensures comparable ==> long == LongEnough(replicas, readings, limits.minimum)
    {
      comparable := replicas.Keys == readings.Keys && readings != map[];
      long := true;
      if !comparable {
        return;
      }
      var todo := readings.Keys;
      while todo != {}
        invariant todo <= readings.Keys
        invariant forall k :: k in readings && k !in todo ==> Continues(replicas[k], readings[k], limits.maximum)
        invariant long <==> forall k :: k in readings && k !in todo ==> limits.minimum <= readings[k].at - replicas[k].at
        decreases todo
      {
        Inhabited(todo);
        var key :| key in todo;
        if !Continues(replicas[key], readings[key], limits.maximum) {
          comparable := false;
          return;
        }
        long := long && limits.minimum <= readings[key].at - replicas[key].at;
        todo := todo - {key};
      }
    }

    /** Consumes one scrape: measures the interval since the baseline if the two
        scrapes can be compared, are far enough apart and add up. */
    method UpdateSaturation(readings: Scrape) returns (r: Option<Interval>)
      modifies this
      ensures replicas == NextBaseline(limits, old(replicas), readings)
      ensures r.Some? <==> Emits(limits, old(replicas), readings)
      ensures r.Some? ==> r.value == Measured(limits, old(replicas), readings)
    {
      var previous := replicas;
      var comparable, long := CompareAll(readings);
      if !comparable {
        replicas := readings;
        return None;
      }
      if !long {
        return None;
      }
      replicas := readings;
      if !Consistent(previous, readings) {
        return None;
      }
      r := Some(Measured(limits, previous, readings));
    }
  }

  /** What one counter rose by over all replicas. */
  function Rise(previous: Scrape, readings: Scrape, of: Reading -> int): int
    requires previous.Keys == readings.Keys
  {
    var d := map k | k in readings :: of(readings[k]) - of(previous[k]);
    Sum(d, readings.Keys)
  }

  lemma TotalIsRise(previous: Scrape, readings: Scrape, f: Field, of: Reading -> int)
    requires previous.Keys == readings.Keys
    requires forall x: Reading :: of(x) == x.Count(f)
    ensures Total(previous, readings, f) == Rise(previous, readings, of)
  {
    var d := map k | k in readings :: of(readings[k]) - of(previous[k]);
    SumAgree(Deltas(previous, readings, f), d, readings.Keys);
  }

  /** In the counters themselves: requests and retries are attempts or were turned away
      for capacity. */
  lemma AttemptsAddUp(limits: Limits, previous: Scrape, readings: Scrape)
    requires previous.Keys == readings.Keys
    ensures var m := Measured(limits, previous, readings);
            && m.attempts + Rise(previous, readings, (x: Reading) => x.capacity)
               == Rise(previous, readings, (x: Reading) => x.requests) + Rise(previous, readings, (x: Reading) => x.retries)
            && m.completed == Rise(previous, readings, (x: Reading) => x.completed)
  {
    TotalIsRise(previous, readings, Requests, (x: Reading) => x.requests);
    TotalIsRise(previous, readings, Capacity, (x: Reading) => x.capacity);
    TotalIsRise(previous, readings, Retries, (x: Reading) => x.retries);
    TotalIsRise(previous, readings, Completed, (x: Reading) => x.completed);
    hide Total, Rise, RejectedTotal, RejectedKnown, LongestElapsed, RoundEven;
  }

  /** From the minimum of attempts on, a fraction is given where every replica reports what
      it needs, and is the part of the attempts that its counter rose by. */
  lemma ConcurrencyIsOfAttempts(limits: Limits, previous: Scrape, readings: Scrape)
    requires previous.Keys == readings.Keys
    ensures var m := Measured(limits, previous, readings);
            && (m.concurrencyFraction.Some? ==>
                  m.concurrencyFraction.value * m.attempts as real
                  == Rise(previous, readings, (x: Reading) => x.concurrency) as real)
            && (m.concurrencyFraction.Some? <==>
                  && 0 < m.attempts && limits.minimumAttempts <= m.attempts
                  && forall k :: k in readings ==> readings[k].classified && previous[k].classified)
  {
    TotalIsRise(previous, readings, Concurrency, (x: Reading) => x.concurrency);
    hide Total, Rise, RejectedTotal, RejectedKnown, LongestElapsed, RoundEven, Attempts;
    if 0 < Attempts(previous, readings) {
      ShareTimesWhole(Total(previous, readings, Concurrency), Attempts(previous, readings));
    }
  }

  lemma RejectionIsOfAttempts(limits: Limits, previous: Scrape, readings: Scrape)
    requires previous.Keys == readings.Keys
    ensures var m := Measured(limits, previous, readings);
            var rejected := Rise(previous, readings, (x: Reading) => if x.rejected.Some? then x.rejected.value else 0);
            && (m.rejectedFraction.Some? ==> m.rejectedFraction.value * m.attempts as real == rejected as real)
            && (m.rejectedFraction.Some? <==>
                  && 0 < m.attempts && limits.minimumAttempts <= m.attempts && 0 <= rejected <= m.attempts
                  && forall k :: k in readings ==>
                       && readings[k].rejected.Some? && previous[k].rejected.Some?
                       && previous[k].rejected.value <= readings[k].rejected.value)
  {
    RejectedIsRise(previous, readings);
    hide Total, Rise, RejectedTotal, LongestElapsed, RoundEven, Attempts;
    if 0 < Attempts(previous, readings) {
      ShareTimesWhole(RejectedTotal(previous, readings), Attempts(previous, readings));
    }
  }

  lemma RejectedIsRise(previous: Scrape, readings: Scrape)
    requires previous.Keys == readings.Keys
    ensures RejectedTotal(previous, readings)
            == Rise(previous, readings, (x: Reading) => if x.rejected.Some? then x.rejected.value else 0)
  {
    var of := (x: Reading) => if x.rejected.Some? then x.rejected.value else 0;
    var d := map k | k in readings :: of(readings[k]) - of(previous[k]);
    var e := map k | k in readings :: Rejected(readings[k]) - Rejected(previous[k]);
    SumAgree(d, e, readings.Keys);
  }

  lemma ShareTimesWhole(part: int, whole: int)
    requires 0 < whole
    ensures part as real / whole as real * whole as real == part as real
  {
  }

  lemma {:induction false} LongestElapsedIsLongest(previous: Scrape, readings: Scrape, s: set<Name>)
    requires previous.Keys == readings.Keys && s <= readings.Keys
    ensures forall k :: k in s ==> readings[k].at - previous[k].at <= LongestElapsed(previous, readings, s)
    ensures LongestElapsed(previous, readings, s) == 0.0
            || exists k :: k in s && readings[k].at - previous[k].at == LongestElapsed(previous, readings, s)
  {
    if s != {} {
      LongestElapsedIsLongest(previous, readings, s - {Least(s)});
      assert forall k :: k in s - {Least(s)} ==> k in s;
    }
  }

  lemma SomeReplica(readings: Scrape)
    ensures readings == map[] || readings.Keys != {}
  {
    if readings.Keys == {} {
      assert forall k :: k !in readings;
    }
  }

  /** The window is as long as the longest replica's interval, to the nearest second,
      and to the even one halfway. */
  lemma WindowIsLongestInterval(limits: Limits, previous: Scrape, readings: Scrape) returns (k: Name)
    requires Emits(limits, previous, readings)
    ensures k in readings
    ensures forall j :: j in readings ==> readings[j].at - previous[j].at <= readings[k].at - previous[k].at
    ensures var off := Measured(limits, previous, readings).windowSeconds as real - (readings[k].at - previous[k].at);
            && -0.5 <= off <= 0.5
            && (off == 0.5 || off == -0.5 ==> Measured(limits, previous, readings).windowSeconds % 2 == 0)
  {
    hide Attempts, Total, RejectedTotal, RejectedKnown, Consistent, LongEnough, LongestElapsed;
    LongestElapsedIsLongest(previous, readings, readings.Keys);
    Inhabited(readings.Keys);
    SomeReplica(readings);
    var any :| any in readings.Keys;
    assert Continues(previous[any], readings[any], limits.maximum);
    k :| k in readings.Keys && readings[k].at - previous[k].at == LongestElapsed(previous, readings, readings.Keys);
  }

  /** The replica is the same process, has lost no count, and is as far on as the limits ask. */
  predicate Advanced(limits: Limits, earlier: Reading, current: Reading) {
    && current.start == earlier.start
    && !(current.requests < earlier.requests || current.completed < earlier.completed || current.retries < earlier.retries
         || current.capacity < earlier.capacity || current.concurrency < earlier.concurrency)
    && !(current.at - earlier.at <= 0.0 || current.at - earlier.at < limits.minimum || limits.maximum < current.at - earlier.at)
  }

  /** In the counters themselves: a scrape is measured exactly when the same replicas have
      all advanced, and what was turned away, failed over concurrency or completed adds up
      to no more than what was asked for. */
  lemma MeasuredExactly(limits: Limits, previous: Scrape, readings: Scrape)
    requires previous.Keys == readings.Keys
    ensures Emits(limits, previous, readings)
            <==> && readings != map[]
                 && (forall k :: k in readings ==> Advanced(limits, previous[k], readings[k]))
                 && var asked := Rise(previous, readings, (x: Reading) => x.requests)
                                 + Rise(previous, readings, (x: Reading) => x.retries);
                    var turnedAway := Rise(previous, readings, (x: Reading) => x.capacity);
                    && !(asked < turnedAway)
                    && !(asked < turnedAway + Rise(previous, readings, (x: Reading) => x.concurrency))
                    && !(asked < turnedAway + Rise(previous, readings, (x: Reading) => x.completed))
  {
    if readings != map[] {
      AdvancedReplicas(limits, previous, readings);
    }
    TotalIsRise(previous, readings, Requests, (x: Reading) => x.requests);
    TotalIsRise(previous, readings, Capacity, (x: Reading) => x.capacity);
    TotalIsRise(previous, readings, Retries, (x: Reading) => x.retries);
    TotalIsRise(previous, readings, Completed, (x: Reading) => x.completed);
    TotalIsRise(previous, readings, Concurrency, (x: Reading) => x.concurrency);
    hide Total, Rise, Comparable, LongEnough, Advanced;
  }

  lemma AdvancedReplicas(limits: Limits, previous: Scrape, readings: Scrape)
    requires previous.Keys == readings.Keys && readings != map[]
    ensures Comparable(previous, readings, limits.maximum) && LongEnough(previous, readings, limits.minimum)
            <==> forall k :: k in readings ==> Advanced(limits, previous[k], readings[k])
  {
    forall k | k in readings
      ensures Advanced(limits, previous[k], readings[k])
              <==> Continues(previous[k], readings[k], limits.maximum) && limits.minimum <= readings[k].at - previous[k].at
    {
    }
    hide Continues, Advanced;
  }

  /** What a measurement reports is a share of its attempts. */
  lemma FractionsAreShares(limits: Limits, previous: Scrape, readings: Scrape)
    requires Emits(limits, previous, readings)
    ensures var m := Measured(limits, previous, readings);
            && 0 <= m.completed <= m.attempts
            && (m.concurrencyFraction.Some? ==> 0.0 <= m.concurrencyFraction.value <= 1.0)
            && (m.rejectedFraction.Some? ==> 0.0 <= m.rejectedFraction.value <= 1.0)
  {
    DeltasNonNegative(limits, previous, readings, Completed);
    DeltasNonNegative(limits, previous, readings, Concurrency);
    var attempts := Attempts(previous, readings);
    if 0 < attempts {
      ShareInRange(Total(previous, readings, Concurrency), attempts);
      if 0 <= RejectedTotal(previous, readings) <= attempts {
        ShareInRange(RejectedTotal(previous, readings), attempts);
      }
    }
  }

  lemma DeltasNonNegative(limits: Limits, previous: Scrape, readings: Scrape, f: Field)
    requires Comparable(previous, readings, limits.maximum)
    ensures 0 <= Total(previous, readings, f)
  {
    forall k | k in readings ensures 0 <= Deltas(previous, readings, f)[k] {
      assert Continues(previous[k], readings[k], limits.maximum);
    }
    SumNonNegative(Deltas(previous, readings, f), readings.Keys);
  }

  lemma ShareInRange(part: int, whole: int)
    requires 0 <= part <= whole && 0 < whole
    ensures 0.0 <= part as real / whole as real <= 1.0
  {
  }

  // ---- runs ----

  /** The baseline after a run of scrapes from a fresh state file. */
  function Baseline(limits: Limits, run: seq<Scrape>): Scrape {
    if run == [] then map[] else NextBaseline(limits, Baseline(limits, run[..|run| - 1]), run[|run| - 1])
  }

  predicate EmitsAt(limits: Limits, run: seq<Scrape>, i: nat)
    requires i < |run|
  {
    Emits(limits, Baseline(limits, run[..i]), run[i])
  }

  /** Which scrape is the baseline for scrape i; none before the first. */
  function BaselineOf(limits: Limits, run: seq<Scrape>, i: nat): (b: int)
    requires i <= |run|
    ensures -1 <= b < i
  {
    if i == 0 then -1
    else if NextBaseline(limits, Baseline(limits, run[..i - 1]), run[i - 1]) == run[i - 1] then i - 1
    else BaselineOf(limits, run, i - 1)
  }

  lemma {:induction false} BaselineIsScrape(limits: Limits, run: seq<Scrape>, i: nat)
    requires i <= |run|
    ensures Baseline(limits, run[..i]) == if BaselineOf(limits, run, i) < 0 then map[] else run[BaselineOf(limits, run, i)]
  {
    if i > 0 {
      BaselineIsScrape(limits, run, i - 1);
      assert run[..i][..i - 1] == run[..i - 1];
    }
  }

  /** Every measurement compares two scrapes of the same membership and the same
      processes, each replica's elapsed time within the limits. */
  lemma EmissionsCompareLikeWithLike(limits: Limits, run: seq<Scrape>, i: nat)
    requires i < |run| && EmitsAt(limits, run, i)
    ensures var b := BaselineOf(limits, run, i);
            && 0 <= b < i && run[b].Keys == run[i].Keys
            && forall k :: k in run[i] ==>
                 && run[b][k].start == run[i][k].start
                 && limits.minimum <= run[i][k].at - run[b][k].at <= limits.maximum
  {
    BaselineIsScrape(limits, run, i);
    var b := BaselineOf(limits, run, i);
    assert b >= 0;
    forall k | k in run[i] ensures Continues(run[b][k], run[i][k], limits.maximum) {
    }
  }

  lemma EmissionMoves(limits: Limits, run: seq<Scrape>, i: nat)
    requires i < |run| && EmitsAt(limits, run, i)
    ensures BaselineOf(limits, run, i + 1) == i
  {
    hide Baseline, Consistent, Comparable, LongEnough;
  }

  lemma {:induction false} BaselineMovesOn(limits: Limits, run: seq<Scrape>, i: nat, j: nat)
    requires i < j <= |run| && EmitsAt(limits, run, i)
    ensures i <= BaselineOf(limits, run, j)
  {
    EmissionMoves(limits, run, i);
    hide EmitsAt, NextBaseline, Baseline;
    if j > i + 1 {
      BaselineMovesOn(limits, run, i, j - 1);
    }
  }

  /** Two measurements never share any part of the run: the later one starts no
      earlier than the scrape the earlier one ended with. */
  lemma EmissionsAreDisjoint(limits: Limits, run: seq<Scrape>, i: nat, j: nat)
    requires i < j < |run| && EmitsAt(limits, run, i) && EmitsAt(limits, run, j)
    ensures BaselineOf(limits, run, i) < i <= BaselineOf(limits, run, j) < j
  {
    BaselineMovesOn(limits, run, i, j);
  }

  // ---- what is measured of one process ----

  /** Scrape s reads the process of replica k that started at p. */
  predicate Reads(s: Scrape, k: Name, p: real) { k in s && s[k].start == p }

  /** All that a process's counter visibly rose by, from scrape to scrape. */
  function Risen(run: seq<Scrape>, k: Name, p: real, f: Field): nat {
    var n := |run| - 1;
    if n < 1 then 0
    else
      Risen(run[..n], k, p, f)
      + if Reads(run[n - 1], k, p) && Reads(run[n], k, p)
        then Max(0, run[n][k].Count(f) - run[n - 1][k].Count(f)) else 0
  }

  /** All of it that entered a measurement. */
  function Counted(limits: Limits, run: seq<Scrape>, k: Name, p: real, f: Field): int {
    var n := |run| - 1;
    if n < 0 then 0
    else
      Counted(limits, run[..n], k, p, f)
      + if EmitsAt(limits, run, n) && Reads(run[n], k, p) then Deltas(Baseline(limits, run[..n]), run[n], f)[k] else 0
  }

  /** What the process's counter has risen by since the baseline. */
  function Pending(base: Scrape, last: Scrape, k: Name, p: real, f: Field): int {
    if Reads(base, k, p) && Reads(last, k, p) then last[k].Count(f) - base[k].Count(f) else 0
  }

  /** The latest scrape is of the baseline's processes, at or past the baseline's counts. */
  predicate Follows(base: Scrape, last: Scrape) {
    base.Keys == last.Keys
    && forall k :: k in last ==>
         && base[k].start == last[k].start
         && forall f: Field :: base[k].Count(f) <= last[k].Count(f)
  }

  lemma ContinuesCounts(a: Reading, b: Reading, maximum: real, f: Field)
    requires Continues(a, b, maximum)
    ensures a.Count(f) <= b.Count(f)
  {
  }

  lemma LastFollows(limits: Limits, run: seq<Scrape>)
    requires run != []
    ensures Follows(Baseline(limits, run), run[|run| - 1])
  {
    var n := |run| - 1;
    var previous := Baseline(limits, run[..n]);
    if Comparable(previous, run[n], limits.maximum) {
      forall k, f: Field | k in run[n] ensures previous[k].Count(f) <= run[n][k].Count(f) {
        ContinuesCounts(previous[k], run[n][k], limits.maximum, f);
      }
    }
  }

  /** Each increment of a process's counter enters at most one measurement. */
  lemma {:induction false} CountedPlusPendingWithinRisen(limits: Limits, run: seq<Scrape>, k: Name, p: real, f: Field)
    requires run != []
    ensures 0 <= Pending(Baseline(limits, run), run[|run| - 1], k, p, f)
    ensures Counted(limits, run, k, p, f) + Pending(Baseline(limits, run), run[|run| - 1], k, p, f) <= Risen(run, k, p, f)
  {
    hide Emits, NextBaseline, Deltas, Pending, Follows;
    var n := |run| - 1;
    LastFollows(limits, run);
    PendingIsRise(Baseline(limits, run), run[n], k, p, f);
    if n > 0 {
      CountedPlusPendingWithinRisen(limits, run[..n], k, p, f);
      LastFollows(limits, run[..n]);
      OneScrape(limits, Baseline(limits, run[..n]), run[n - 1], run[n], k, p, f);
    } else {
      FirstScrape(limits, run[0], k, p, f);
    }
  }

  lemma PendingIsRise(base: Scrape, last: Scrape, k: Name, p: real, f: Field)
    requires Follows(base, last)
    ensures 0 <= Pending(base, last, k, p, f)
  {
  }

  lemma FirstScrape(limits: Limits, first: Scrape, k: Name, p: real, f: Field)
    ensures !Emits(limits, map[], first) && Pending(NextBaseline(limits, map[], first), first, k, p, f) == 0
  {
  }

  lemma OneScrape(limits: Limits, base: Scrape, last: Scrape, next: Scrape, k: Name, p: real, f: Field)
    requires Follows(base, last)
    ensures var counted := if Emits(limits, base, next) && Reads(next, k, p) then Deltas(base, next, f)[k] else 0;
            var risen := if Reads(last, k, p) && Reads(next, k, p) then Max(0, next[k].Count(f) - last[k].Count(f)) else 0;
            counted + Pending(NextBaseline(limits, base, next), next, k, p, f) <= Pending(base, last, k, p, f) + risen
  {
  }

  /** Over any run the measurements together count no more than the counter rose by;
      a restart or a fall of a counter only drops increments. */
  lemma MeasurementsTelescope(limits: Limits, run: seq<Scrape>, k: Name, p: real, f: Field)
    ensures Counted(limits, run, k, p, f) <= Risen(run, k, p, f)
  {
    if run != [] {
      CountedPlusPendingWithinRisen(limits, run, k, p, f);
    }
  }
}
