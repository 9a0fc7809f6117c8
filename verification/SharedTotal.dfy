/** shared_account_total of src/federation.rs: the one total that every host derives
    from the quota samples and host views they all hold. */
module SharedTotal {
  import opened Common
  import opened Controller
  import opened AccountSplit

  datatype QuotaSample = QuotaSample(window: Name, used: real, resetsAt: int, observedAt: int)

  const DISAGREEMENT: real := 0.05

  // ---- the freshest sample ----

  /** a is older than b; at the same time the smaller fraction counts as older, then
      the larger window name. */
  predicate Older(a: QuotaSample, b: QuotaSample) {
    || a.observedAt < b.observedAt
    || (a.observedAt == b.observedAt && (a.used < b.used || (a.used == b.used && b.window < a.window)))
  }

  /** s was not observed after f; if at the same time, it reports no larger fraction; and
      if the same one, no smaller window name. */
  predicate NoFresher(s: QuotaSample, f: QuotaSample) {
    && s.observedAt <= f.observedAt
    && (s.observedAt == f.observedAt ==> s.used <= f.used && (s.used == f.used ==> f.window <= s.window))
  }

  function Freshest(samples: seq<QuotaSample>): QuotaSample
    requires samples != []
  {
    var last := samples[|samples| - 1];
    if |samples| == 1 then last
    else var b := Freshest(samples[..|samples| - 1]); if Older(last, b) then b else last
  }

  function Larger(a: real, b: real): real { if a < b then b else a }

  function LargestUsed(samples: seq<QuotaSample>, base: real): real {
    if samples == [] then base
    else Larger(LargestUsed(samples[..|samples| - 1], base), samples[|samples| - 1].used)
  }

  /** The freshest sample's fraction, or the largest where some sample disagrees. */
  function UsedFraction(samples: seq<QuotaSample>): Option<real> {
    if samples == [] then None
    else
      var base := Freshest(samples).used;
      var largest := LargestUsed(samples, base);
      Some(if largest - base > DISAGREEMENT then largest else base)
  }

  lemma {:induction false} FreshestIsNewest(samples: seq<QuotaSample>)
    requires samples != []
    ensures Freshest(samples) in samples
    ensures forall s :: s in samples ==> !Older(Freshest(samples), s) && NoFresher(s, Freshest(samples))
  {
    var n := |samples| - 1;
    if n > 0 {
      FreshestIsNewest(samples[..n]);
      forall s | s in samples ensures s in samples[..n] || s == samples[n] {
        var i :| 0 <= i <= n && samples[i] == s;
      }
    }
  }

  lemma {:induction false} LargestUsedIsLargest(samples: seq<QuotaSample>, base: real)
    ensures base <= LargestUsed(samples, base)
    ensures forall s :: s in samples ==> s.used <= LargestUsed(samples, base)
    ensures LargestUsed(samples, base) == base || exists s :: s in samples && s.used == LargestUsed(samples, base)
  {
    if samples != [] {
      var n := |samples| - 1;
      LargestUsedIsLargest(samples[..n], base);
      forall s | s in samples ensures s in samples[..n] || s == samples[n] {
        var i :| 0 <= i <= n && samples[i] == s;
      }
      assert samples[n] in samples;
      assert forall s :: s in samples[..n] ==> s in samples;
    }
  }

  /** Samples are told apart by time, fraction and window; those that agree on all
      three also agree on when the window resets. */
  predicate KeysAgree(samples: seq<QuotaSample>) {
    forall a, b :: a in samples && b in samples && !Older(a, b) && !Older(b, a) ==> a.resetsAt == b.resetsAt
  }

  ghost predicate SameElements(xs: seq<QuotaSample>, ys: seq<QuotaSample>) {
    forall s :: s in xs <==> s in ys
  }

  /** No order of samples changes the freshest one or the fraction used. */
  lemma OrderOfSamplesIsLost(xs: seq<QuotaSample>, ys: seq<QuotaSample>)
    requires SameElements(xs, ys) && xs != [] && ys != [] && KeysAgree(xs)
    ensures Freshest(xs) == Freshest(ys) && UsedFraction(xs) == UsedFraction(ys)
  {
    FreshestIsNewest(xs);
    FreshestIsNewest(ys);
    var base := Freshest(xs).used;
    LargestUsedIsLargest(xs, base);
    LargestUsedIsLargest(ys, base);
  }

  /** The fraction used is one that some sample reports: the freshest one's while none is
      more than the tolerance above it, and otherwise the largest of all. */
  lemma UsedFractionIsConservative(samples: seq<QuotaSample>)
    requires samples != []
    ensures exists s :: s in samples && s.used == UsedFraction(samples).value
    ensures Freshest(samples).used <= UsedFraction(samples).value
    ensures forall s :: s in samples ==> s.used <= UsedFraction(samples).value + DISAGREEMENT
    ensures (forall s :: s in samples ==> s.used <= Freshest(samples).used + 0.05)
            ==> UsedFraction(samples).value == Freshest(samples).used
    ensures (exists s :: s in samples && Freshest(samples).used + 0.05 < s.used)
            ==> forall s :: s in samples ==> s.used <= UsedFraction(samples).value
  {
    FreshestIsNewest(samples);
    LargestUsedIsLargest(samples, Freshest(samples).used);
    assert exists s :: s in samples && s.used == Freshest(samples).used;
  }

  /** A sample no fresher than the freshest never lowers the fraction, wherever it
      arrives in the list. */
  lemma OlderSampleNeverLowers(xs: seq<QuotaSample>, s: QuotaSample, ys: seq<QuotaSample>)
    requires xs + ys != [] && !Older(Freshest(xs + ys), s)
    ensures UsedFraction(xs + ys).value <= UsedFraction(xs + [s] + ys).value
  {
    var few, many := xs + ys, xs + [s] + ys;
    FreshestIsNewest(few);
    FreshestIsNewest(many);
    forall a ensures a in many <==> a in few || a == s {
    }
    assert Freshest(many).used == Freshest(few).used;
    LargestUsedIsLargest(few, Freshest(few).used);
    LargestUsedIsLargest(many, Freshest(few).used);
  }

  // ---- the shared total ----

  datatype SharedDecision = SharedDecision(total: U32, used: Option<real>, denominator: U32, stale: bool, shares: Table)

  function SharedSnapshot(samples: seq<QuotaSample>, now: int): Snapshot {
    if samples == [] then Snapshot(now, false, [], None)
    else
      var f := Freshest(samples);
      Snapshot(f.observedAt, true, [Window(f.window, UsedFraction(samples).value, false, f.resetsAt)], None)
  }

  function Denominator(x: Inputs): U32
    requires x.Valid()
  {
    SumNonNegative(x.workers, x.workers.Keys);
    Min(Sum(x.workers, x.workers.Keys), U32_MAX)
  }

  ghost predicate IsShared(config: Config, prior: Prior, x: Inputs, samples: seq<QuotaSample>, now: int,
                           r: Result<SharedDecision, string>)
    requires config.Valid() && x.Valid()
  {
    var d := Evaluation(config, SharedSnapshot(samples, now), prior, Denominator(x), now);
    && (r.Ok? <==> d.Ok?)
    && (r.Err? ==> d == Err(r.error))
    && (r.Ok? ==>
          && r.value == SharedDecision(d.value.desired, UsedFraction(samples), Denominator(x), d.value.stale, r.value.shares)
          && IsSplit(d.value.desired, x, r.value.shares))
  }

  /** The total is the controller's answer for one window that has not been reached, under
      the name, reset and time of a sample that none is fresher than, and at the fraction
      the decision reports. */
  lemma TotalUsesReportedFraction(config: Config, prior: Prior, x: Inputs, samples: seq<QuotaSample>, now: int,
                                  r: Result<SharedDecision, string>) returns (f: QuotaSample)
    requires config.Valid() && x.Valid() && IsShared(config, prior, x, samples, now, r) && samples != [] && r.Ok?
    ensures f in samples && forall s :: s in samples ==> NoFresher(s, f)
    ensures r.value.used.Some?
    ensures var window := Window(f.window, r.value.used.value, false, f.resetsAt);
            var d := Evaluation(config, Snapshot(f.observedAt, true, [window], None), prior, r.value.denominator, now);
            d.Ok? && d.value.desired == r.value.total && d.value.stale == r.value.stale
    ensures (forall s :: s in samples ==> s.used <= f.used + 0.05) ==> r.value.used == Some(f.used)
    ensures (exists s :: s in samples && f.used + 0.05 < s.used) ==>
              forall s :: s in samples ==> s.used <= r.value.used.value
    ensures exists s :: s in samples && s.used == r.value.used.value
  {
    f := Freshest(samples);
    FreshestIsNewest(samples);
    UsedFractionIsConservative(samples);
    hide Controller.Evaluation, Freshest, UsedFraction, IsSplit;
  }

  /** So a fraction at or over the window's target, be it a disagreeing peer's, takes the
      total as far toward the floor as one step goes. */
  lemma SpentFractionStepsDown(config: Config, prior: Prior, x: Inputs, samples: seq<QuotaSample>, now: int,
                               r: Result<SharedDecision, string>, f: QuotaSample, p: Policy)
    requires config.Valid() && x.Valid() && IsShared(config, prior, x, samples, now, r) && r.Ok?
    requires f in samples && (forall s :: s in samples ==> NoFresher(s, f)) && KeysAgree(samples)
    requires now - f.observedAt < 1000 * (config.staleAfter + 1)
    requires InForce(config, f.window, p) && p.target <= r.value.used.value
    requires config.fleet.minWorkers <= r.value.denominator <= config.fleet.maxWorkers
    ensures r.value.total == Max(config.fleet.minWorkers, r.value.denominator - config.fleet.maxDown)
  {
    var g := TotalUsesReportedFraction(config, prior, x, samples, now, r);
    assert NoFresher(f, g) && NoFresher(g, f);
    var window := Window(g.window, r.value.used.value, false, g.resetsAt);
    hide Controller.Evaluation, IsShared, InForce, KeysAgree, Freshest, UsedFraction;
    SpentWindowStepsDown(config, Snapshot(g.observedAt, true, [window], None), prior, r.value.denominator, now, 0, p);
  }

  /** Without any sample the total holds at what runs already, or approaches the floor. */
  lemma NoSampleHolds(config: Config, prior: Prior, x: Inputs, now: int, r: Result<SharedDecision, string>)
    requires config.Valid() && x.Valid() && IsShared(config, prior, x, [], now, r)
    requires config.fleet.minWorkers <= Denominator(x) <= config.fleet.maxWorkers
    ensures r.Ok? && r.value.stale && r.value.used.None?
    ensures config.staleBehavior.HoldWorkers? ==> r.value.total == Min(Sum(x.workers, x.workers.Keys), U32_MAX)
    ensures config.staleBehavior.MinWorkers? ==>
              StepsToward(config.fleet, Min(Sum(x.workers, x.workers.Keys), U32_MAX), config.fleet.minWorkers, r.value.total)
  {
    hide Controller.Evaluation, IsSplit;
    StaleDecision(config, SharedSnapshot([], now), prior, Denominator(x), now);
  }

  function WorkerCounts(hosts: seq<Host>): (r: seq<nat>)
    ensures |r| == |hosts| && forall i :: 0 <= i < |hosts| ==> r[i] == hosts[i].workers
  {
    seq(|hosts|, i requires 0 <= i < |hosts| => hosts[i].workers)
  }

  function Ids(hosts: seq<Host>): set<Name> { set i | 0 <= i < |hosts| :: hosts[i].id }

  lemma {:induction false} CountsOfTable(hosts: seq<Host>, t: Table)
    requires UniqueIds(hosts) && Ids(hosts) <= t.Keys
    requires forall i :: 0 <= i < |hosts| ==> hosts[i].id in t && t[hosts[i].id] == hosts[i].workers
    ensures Sum(t, Ids(hosts)) == SumSeq(WorkerCounts(hosts))
  {
    if hosts != [] {
      var n := |hosts| - 1;
      assert Ids(hosts) - {hosts[n].id} == Ids(hosts[..n]);
      CountsOfTable(hosts[..n], t);
      SumPick(t, Ids(hosts), hosts[n].id);
      assert WorkerCounts(hosts)[..n] == WorkerCounts(hosts[..n]);
    }
  }

  lemma DenominatorIsSum(hosts: seq<Host>)
    requires UniqueIds(hosts)
    ensures SatSum(WorkerCounts(hosts)) == Denominator(TableOf(hosts))
  {
    var x := TableOf(hosts);
    TableOfHosts(hosts);
    forall i | 0 <= i < |hosts| ensures hosts[i].id in x.workers && x.workers[hosts[i].id] == hosts[i].workers {
      assert hosts[i] in hosts;
      assert Holds(x, hosts[i]);
    }
    forall k | k in x.workers ensures k in Ids(hosts) {
      var i :| 0 <= i < |hosts| && hosts[i].id == k;
    }
    assert Ids(hosts) == x.workers.Keys;
    CountsOfTable(hosts, x.workers);
    SatSumIsCappedSum(WorkerCounts(hosts), WorkerCounts(hosts));
  }

  method SharedAccountTotal(config: Config, prior: Prior, hosts: seq<Host>, samples: seq<QuotaSample>, now: int)
    returns (r: Result<SharedDecision, string>)
    requires config.Valid() && UniqueIds(hosts)
    ensures IsShared(config, prior, TableOf(hosts), samples, now, r)
  {
    hide Controller.Evaluation, IsSplit;
    var denominator: U32 := 0;
    var n := 0;
    while n < |hosts|
      invariant n <= |hosts| && denominator == SatSum(WorkerCounts(hosts[..n]))
    {
      assert WorkerCounts(hosts[..n + 1])[..n] == WorkerCounts(hosts[..n]);
      denominator := SatAdd(denominator, hosts[n].workers);
      n := n + 1;
    }
    assert hosts[..n] == hosts;
    var decision := Controller.Evaluate(config, SharedSnapshot(samples, now), prior, denominator, now);
    var tables := Tables(hosts);
    DenominatorIsSum(hosts);
    if decision.Err? {
      return Err(decision.error);
    }
    var shares := SplitTables(decision.value.desired, tables);
    r := Ok(SharedDecision(decision.value.desired, UsedFraction(samples), denominator, decision.value.stale, shares));
  }

  /** Two hosts holding the same views and samples, each in its own order, derive the
      same decision: total, fraction and every share. */
  lemma InstancesAgree(config: Config, prior: Prior, now: int,
                       hosts: seq<Host>, samples: seq<QuotaSample>, r: Result<SharedDecision, string>,
                       hosts': seq<Host>, samples': seq<QuotaSample>, r': Result<SharedDecision, string>)
    requires config.Valid() && SameViews(hosts, samples, hosts', samples')
    requires IsShared(config, prior, TableOf(hosts), samples, now, r)
    requires IsShared(config, prior, TableOf(hosts'), samples', now, r')
    ensures r == r'
  {
    OrderOfHostsIsLost(hosts, hosts');
    forall s ensures s in samples <==> s in samples' {
      assert s in multiset(samples) <==> s in multiset(samples');
    }
    hide Controller.Evaluation, TableOf, KeysAgree, IsSplit;
    if samples == [] {
      assert multiset(samples') == multiset{};
      assert samples' == [];
    } else {
      assert samples[0] in samples';
      OrderOfSamplesIsLost(samples, samples');
    }
    assert SharedSnapshot(samples, now) == SharedSnapshot(samples', now);
    if r.Ok? {
      SplitIsUnique(r.value.total, TableOf(hosts), r.value.shares, r'.value.shares);
    }
  }

  /** The same uniquely named hosts and the same samples, each list in some order. */
  ghost predicate SameViews(hosts: seq<Host>, samples: seq<QuotaSample>, hosts': seq<Host>, samples': seq<QuotaSample>) {
    && multiset(hosts) == multiset(hosts') && UniqueIds(hosts) && UniqueIds(hosts')
    && multiset(samples) == multiset(samples') && KeysAgree(samples)
  }

  /** The decision was derived from the same hosts and samples in some order. */
  ghost predicate DerivedElsewhere(config: Config, prior: Prior, now: int, hosts: seq<Host>, samples: seq<QuotaSample>,
                                   r: Result<SharedDecision, string>)
    requires config.Valid()
  {
    exists hosts', samples' ::
      SameViews(hosts, samples, hosts', samples') && IsShared(config, prior, TableOf(hosts'), samples', now, r)
  }

  /** When every host actuates only its own entry of its own decision, the hosts
      together stay within the one total they all derived. */
  lemma OwnSharesStayWithinTotal(config: Config, prior: Prior, now: int, hosts: seq<Host>, samples: seq<QuotaSample>,
                                 r: Result<SharedDecision, string>,
                                 decisions: map<Name, Result<SharedDecision, string>>, own: Table)
    requires config.Valid() && IsShared(config, prior, TableOf(hosts), samples, now, r) && r.Ok?
    requires decisions.Keys == own.Keys == TableOf(hosts).workers.Keys
    requires forall h :: h in decisions ==> DerivedElsewhere(config, prior, now, hosts, samples, decisions[h])
    requires forall h :: h in own && decisions[h].Ok? && h in decisions[h].value.shares ==>
               own[h] == decisions[h].value.shares[h]
    requires var x := TableOf(hosts); r.value.total < U32_MAX || Sum(x.workers, x.workers.Keys) <= U32_MAX
    ensures Sum(own, own.Keys) <= r.value.total
  {
    var x := TableOf(hosts);
    SharesWithinTotalExactly(r.value.total, x, r.value.shares);
    forall h | h in own ensures own[h] == r.value.shares[h] {
      var hosts', samples' :|
        SameViews(hosts, samples, hosts', samples') && IsShared(config, prior, TableOf(hosts'), samples', now, decisions[h]);
      InstancesAgree(config, prior, now, hosts, samples, r, hosts', samples', decisions[h]);
    }
    SumAgree(own, r.value.shares, own.Keys);
  }
}
