/** decide and admission of scripts/subgov_host_capacity.py: several pool adapters
    share one host's worker slots through a state file of requests and of
    reservations for launches that have not appeared yet. */
module HostAdmission {
  import opened Common
  import opened HostCeiling
  import opened SplitTargets

  datatype Request = Request(target: int, at: real)

  datatype Reservation = Reservation(count: int, at: real)

  datatype Refusal = UnknownPool | MissingTarget(pool: Name)

  datatype Decision = Decision(granted: int, ceiling: int, allocations: Table)

  predicate Fresh(at: real, now: real) { 0.0 <= now - at <= FRESH_SECONDS }

  // ---- reservations ----

  /** A reservation lasts until all its workers have appeared or its window ends. */
  predicate Lasts(reservations: map<Name, Reservation>, counts: Table, now: real, k: Name)
    requires k in reservations
  {
    k in counts && counts[k] < reservations[k].count && Fresh(reservations[k].at, now)
  }

  function Kept(reservations: map<Name, Reservation>, counts: Table, now: real): map<Name, Reservation> {
    map k | k in reservations && Lasts(reservations, counts, now, k) :: reservations[k]
  }

  /** What a pool occupies: its workers, or its reservation while that is higher. */
  function Effective(counts: Table, kept: map<Name, Reservation>): (e: Table)
    ensures e.Keys == counts.Keys
  {
    map k | k in counts :: if k in kept then Max(counts[k], kept[k].count) else counts[k]
  }

  function Room(counts: Table, kept: map<Name, Reservation>, pool: Name, budget: int): int {
    Max(0, budget - Sum(Effective(counts, kept), counts.Keys - {pool}))
  }

  /** The grant of one pool; `hold` is pressure or unknown demand. */
  function Grant(counts: Table, kept: map<Name, Reservation>, pool: Name, allocation: int, budget: int, hold: bool): int
    requires pool in counts
  {
    var open := Min(allocation, Room(counts, kept, pool, budget));
    if hold || pool in kept then Min(open, counts[pool]) else open
  }

  function AfterGrant(counts: Table, kept: map<Name, Reservation>, pool: Name, asked: bool, grant: int, now: real)
    : map<Name, Reservation>
    requires pool in counts
  {
    if asked && grant > counts[pool] then kept[pool := Reservation(grant, now)] else kept
  }

  // ---- targets ----

  /** A pool's fresh request, else its present size; never more than its present
      size while its demand is unknown or the host is under pressure. */
  function Target(requests: map<Name, Request>, count: int, hold: bool, now: real, k: Name): Option<int> {
    var recent := Fresh(if k in requests then requests[k].at else 0.0, now);
    if recent && k !in requests then None
    else
      var wanted := if recent then requests[k].target else count;
      Some(if hold then Min(wanted, count) else wanted)
  }

  predicate MissesTarget(requests: map<Name, Request>, now: real, k: Name) {
    k !in requests && Fresh(0.0, now)
  }

  /** A request of the last 900 seconds sets the target; a lapsed one, or none at all, leaves
      the pool at its present size; while held no target is above that size. Only a host
      whose clock still shows the first 900 seconds has a pool without a target. */
  lemma TargetFollowsRequest(requests: map<Name, Request>, count: int, hold: bool, now: real, k: Name)
    ensures var t := Target(requests, count, hold, now, k);
            && (t.None? <==> k !in requests && 0.0 <= now <= 900.0)
            && (t.Some? && k in requests && requests[k].at <= now <= requests[k].at + 900.0 ==>
                  if hold && count < requests[k].target then t.value == count else t.value == requests[k].target)
            && (t.Some? && (k !in requests || now < requests[k].at || requests[k].at + 900.0 < now) ==> t.value == count)
  {
  }

  function Unknown(demand: map<Name, Option<nat>>): set<Name> {
    set k | k in demand && demand[k].None?
  }

  function Ready(demand: map<Name, Option<nat>>): Table {
    map k | k in demand :: if demand[k].Some? then demand[k].value else 0
  }

  function Restrict(t: Table, s: set<Name>): (r: Table)
    ensures r.Keys == t.Keys * s
  {
    map k | k in t && k in s :: t[k]
  }

  /** What split_targets promises of a split. */
  ghost predicate WellSplit(targets: Table, demand: Table, ceiling: int, r: Table) {
    && Conserves(targets, ceiling, r) && ServesDemandFirst(targets, demand, r)
    && WaterFilled(targets, demand, r) && FilledByTarget(targets, demand, r)
  }

  ghost predicate Targeted(targets: Table, requests: map<Name, Request>, counts: Table,
                           demand: map<Name, Option<nat>>, pressured: bool, now: real)
  {
    && targets.Keys == counts.Keys == demand.Keys
    && forall k :: k in targets ==>
         Target(requests, counts[k], pressured || demand[k].None?, now, k) == Some(targets[k])
  }

  /** The two splits of one budget: pools of unknown demand hold first, by size of
      target; the others share what is left by demand. */
  ghost predicate Allocated(targets: Table, demand: map<Name, Option<nat>>, budget: int, allocations: Table) {
    var held, shared := Restrict(allocations, Unknown(demand)), Restrict(allocations, allocations.Keys - Unknown(demand));
    && allocations.Keys == targets.Keys
    && WellSplit(Restrict(targets, Unknown(demand)), map[], budget, held)
    && WellSplit(Restrict(targets, targets.Keys - Unknown(demand)), Ready(demand), budget - Sum(held, held.Keys), shared)
  }

  lemma SplitPositives(targets: Table, s: set<Name>)
    requires s <= targets.Keys
    ensures var t1, t2 := Restrict(targets, s), Restrict(targets, targets.Keys - s);
            && Sum(targets, Positives(targets)) == Sum(t1, Positives(t1)) + Sum(t2, Positives(t2))
            && 0 <= Sum(t1, Positives(t1)) && 0 <= Sum(t2, Positives(t2))
  {
    var t1, t2 := Restrict(targets, s), Restrict(targets, targets.Keys - s);
    assert Positives(targets) == Positives(t1) + Positives(t2);
    SumUnion(targets, Positives(t1), Positives(t2));
    SumAgree(targets, t1, Positives(t1));
    SumAgree(targets, t2, Positives(t2));
    SumNonNegative(t1, Positives(t1));
    SumNonNegative(t2, Positives(t2));
  }

  /** The splits hand out the budget, and leave a slot unused only when every target is met. */
  lemma AllocationsConserve(targets: Table, demand: map<Name, Option<nat>>, budget: int, allocations: Table)
    requires 0 <= budget && targets.Keys == demand.Keys && Allocated(targets, demand, budget, allocations)
    ensures Sum(allocations, allocations.Keys) == Min(budget, Sum(targets, Positives(targets)))
  {
    hide ServesDemandFirst, WaterFilled, FilledByTarget;
    var unknown := Unknown(demand);
    var held, shared := Restrict(allocations, unknown), Restrict(allocations, allocations.Keys - unknown);
    SplitPositives(targets, unknown);
    SumSplit(allocations, allocations.Keys, held.Keys);
    assert allocations.Keys - held.Keys == shared.Keys;
    SumAgree(allocations, held, held.Keys);
    SumAgree(allocations, shared, shared.Keys);
  }

  /** Pools of unknown demand are served before the others: while one of them is short of
      its target, no pool of known demand gets a slot. */
  lemma UnknownServedFirst(targets: Table, demand: map<Name, Option<nat>>, budget: int, allocations: Table, k: Name, j: Name)
    requires 0 <= budget && targets.Keys == demand.Keys && Allocated(targets, demand, budget, allocations)
    requires k in demand && demand[k].None? && j in demand && demand[j].Some?
    requires k in allocations && allocations[k] < targets[k]
    ensures j in allocations && allocations[j] == 0
  {
    hide ServesDemandFirst, WaterFilled, FilledByTarget;
    var unknown := Unknown(demand);
    var held, shared := Restrict(allocations, unknown), Restrict(allocations, allocations.Keys - unknown);
    var wanted := Restrict(targets, unknown);
    assert k in held && j in shared;
    HeldShort(wanted, budget, held, k);
    SumNonNegative(shared, shared.Keys);
    PositivesNonNegative(Restrict(targets, targets.Keys - unknown));
  }

  lemma PositivesNonNegative(t: Table)
    ensures 0 <= Sum(t, Positives(t))
  {
    SumNonNegative(t, Positives(t));
  }

  lemma HeldShort(wanted: Table, budget: int, held: Table, k: Name)
    requires 0 <= budget && Conserves(wanted, budget, held) && k in held && held[k] < wanted[k]
    ensures Sum(held, held.Keys) == budget
  {
    var positives := Positives(wanted);
    SumSplit(held, held.Keys, positives);
    SumConstant(held, held.Keys - positives, 0);
    SumPick(held, positives, k);
    SumPick(wanted, positives, k);
    SumLe(held, wanted, positives - {k});
  }

  /** The others share by the demand they report: if i ends below its target, then
      (a_j - 1) / d_j < (a_i + 1) / d_i; and one that reports none gets a slot only when
      those that report some are at their targets. */
  lemma KnownShareByDemand(targets: Table, demand: map<Name, Option<nat>>, budget: int, allocations: Table, i: Name, j: Name)
    requires targets.Keys == demand.Keys && Allocated(targets, demand, budget, allocations)
    requires i in demand && demand[i].Some? && j in demand && demand[j].Some? && 0 < demand[i].value
    ensures i in allocations && j in allocations
    ensures 0 < demand[j].value && allocations[i] < targets[i] ==>
              (allocations[j] - 1) * demand[i].value < (allocations[i] + 1) * demand[j].value
    ensures demand[j].value == 0 && 0 < allocations[j] ==> allocations[i] == Max(0, targets[i])
  {
    hide Conserves, FilledByTarget;
    var unknown, ready := Unknown(demand), Ready(demand);
    var shared := Restrict(allocations, allocations.Keys - unknown);
    assert i in shared && j in shared;
    assert Demand(ready, i) == demand[i].value && Demand(ready, j) == demand[j].value;
  }

  /** Pools of unknown demand share by their targets. */
  lemma UnknownShareByTarget(targets: Table, demand: map<Name, Option<nat>>, budget: int, allocations: Table, i: Name, j: Name)
    requires targets.Keys == demand.Keys && Allocated(targets, demand, budget, allocations)
    requires i in demand && demand[i].None? && j in demand && demand[j].None? && 0 < targets[j]
    ensures i in allocations && j in allocations
    ensures 0 <= allocations[i] < targets[i] ==> (allocations[j] - 1) * targets[i] < (allocations[i] + 1) * targets[j]
  {
    hide Conserves, WaterFilled, ServesDemandFirst;
    var held := Restrict(allocations, Unknown(demand));
    assert i in held && j in held;
    assert Demand(map[], i) == 0 && Demand(map[], j) == 0;
  }

  /** The allocations follow from the requests on file. */
  ghost predicate SplitAsFiled(requests: map<Name, Request>, demand: map<Name, Option<nat>>, counts: Table,
                               pressured: bool, now: real, budget: int, allocations: Table)
  {
    exists targets ::
      Targeted(targets, requests, counts, demand, pressured, now) && Allocated(targets, demand, budget, allocations)
  }

  function Filed(requests: map<Name, Request>, pool: Name, desired: Option<int>, now: real): map<Name, Request> {
    if desired.Some? then requests[pool := Request(desired.value, now)] else requests
  }

  /** What a decision for one pool fixes: the split, the grant, and the reservations left. */
  ghost predicate Settled(requests: map<Name, Request>, before: map<Name, Reservation>, after: map<Name, Reservation>,
                          pool: Name, asked: bool, demand: map<Name, Option<nat>>, sample: Sample, now: real, d: Decision)
  {
    var counts, budget := sample.counts, Max(0, d.ceiling - sample.unmanaged);
    var kept := Kept(before, counts, now);
    && pool in d.allocations && pool in demand && pool in counts
    && SplitAsFiled(requests, demand, counts, Pressured(sample), now, budget, d.allocations)
    && d.granted == Grant(counts, kept, pool, d.allocations[pool], budget, Pressured(sample) || demand[pool].None?)
    && after == AfterGrant(counts, kept, pool, asked, d.granted, now)
  }

  // ---- the state file ----

  class HostState {
    const pools: set<Name>
    var requests: map<Name, Request>
    var reservations: map<Name, Reservation>
    var history: seq<RssItem>
    var clock: Clock

    constructor (pools: set<Name>)
      ensures this.pools == pools && requests == map[] && reservations == map[] && history == []
      ensures clock == Clock(None, None)
    {
      this.pools := pools;
      requests, reservations, history, clock := map[], map[], [], Clock(None, None);
    }

    method MeasuredCeiling(sample: Sample, now: real) returns (ceiling: int)
      modifies this`history, this`clock
      ensures history == NextHistory(old(history), sample.rss, now)
      ensures clock == Tick(old(clock), Seen(now, Pressured(sample)))
      ensures ceiling == Ceiling(sample, Percentile95(Costs(history)), clock.since, now)
      ensures FollowsProbes(sample, Percentile95(Costs(history)), old(clock), now, ceiling)
    {
      hide FollowsProbes;
      history := NextHistory(history, sample.rss, now);
      var cost := Percentile95(Costs(history));
      CeilingFollowsProbes(sample, cost, clock, now);
      ceiling := MemoryLimit(sample, cost);
      if sample.sliceHigh.Some? {
        ceiling := Min(ceiling, SliceLimit(sample, cost));
      }
      if Pressured(sample) {
        var since := PressureSince(clock.since, clock.lastProbeAt, now);
        clock := clock.(since := Some(since));
        ceiling := Min(ceiling, PressureLimit(sample, since, now));
      } else {
        clock := clock.(since := None);
      }
      clock := clock.(lastProbeAt := Some(now));
    }

    /** Builds the target table; None when a pool has a fresh request without a target. */
    method Targets(counts: Table, demand: map<Name, Option<nat>>, pressured: bool, now: real)
      returns (r: Result<Table, Refusal>)
      requires counts.Keys == demand.Keys == pools
      ensures r.Err? <==> exists k :: k in pools && MissesTarget(requests, now, k)
      ensures r.Ok? ==> Targeted(r.value, requests, counts, demand, pressured, now)
      ensures r.Err? ==> r.error.MissingTarget?
    {
      var targets: Table, todo := map[], pools;
      while todo != {}
        invariant todo <= pools && targets.Keys == pools - todo
        invariant forall k :: k in targets ==> !MissesTarget(requests, now, k)
        invariant forall k :: k in targets ==>
                    Target(requests, counts[k], pressured || demand[k].None?, now, k) == Some(targets[k])
        decreases todo
      {
        Inhabited(todo);
        var key :| key in todo;
        match Target(requests, counts[key], pressured || demand[key].None?, now, key) {
          case None =>
            assert MissesTarget(requests, now, key);
            return Err(MissingTarget(key));
          case Some(target) => targets := targets[key := target];
        }
        todo := todo - {key};
      }
      r := Ok(targets);
    }

    method DropReservations(counts: Table, now: real)
      modifies this`reservations
      ensures reservations == Kept(old(reservations), counts, now)
    {
      ghost var before := reservations;
      var todo := reservations.Keys;
      while todo != {}
        invariant todo <= reservations.Keys <= before.Keys
        invariant forall k :: k in reservations ==> reservations[k] == before[k]
        invariant forall k :: k in before && k !in todo ==> (k in reservations <==> Lasts(before, counts, now, k))
        decreases todo
      {
        Inhabited(todo);
        var key :| key in todo;
        var reservation := reservations[key];
        if key !in counts || counts[key] >= reservation.count || !Fresh(reservation.at, now) {
          reservations := reservations - {key};
        }
        todo := todo - {key};
      }
      assert reservations.Keys == Kept(before, counts, now).Keys;
      assert forall k :: k in Kept(before, counts, now) ==> reservations[k] == Kept(before, counts, now)[k];
    }

    method Split(targets: Table, demand: Table, ceiling: int) returns (r: Table)
      ensures WellSplit(targets, demand, ceiling, r) && r.Keys == targets.Keys
    {
      r := SplitTargets.SplitTargets(targets, demand, ceiling);
    }

    method Allocate(targets: Table, demand: map<Name, Option<nat>>, budget: int) returns (allocations: Table)
      ensures Allocated(targets, demand, budget, allocations) && allocations.Keys == targets.Keys
    {
      hide WellSplit;
      var unknown := Unknown(demand);
      var held := Split(Restrict(targets, unknown), map[], budget);
      var shared := Split(Restrict(targets, targets.Keys - unknown), Ready(demand), budget - Sum(held, held.Keys));
      allocations := held + shared;
      SameTable(Restrict(allocations, unknown), held);
      SameTable(Restrict(allocations, allocations.Keys - unknown), shared);
    }

    method Apportion(counts: Table, demand: map<Name, Option<nat>>, pressured: bool, now: real, budget: int)
      returns (r: Result<Table, Refusal>)
      requires counts.Keys == demand.Keys == pools
      ensures r.Err? <==> exists k :: k in pools && MissesTarget(requests, now, k)
      ensures r.Err? ==> r.error.MissingTarget?
      ensures r.Ok? ==> SplitAsFiled(requests, demand, counts, pressured, now, budget, r.value) && r.value.Keys == pools
    {
      var targets := Targets(counts, demand, pressured, now);
      if targets.Err? {
        return Err(targets.error);
      }
      var allocations := Allocate(targets.value, demand, budget);
      r := Ok(allocations);
    }

    method GrantPool(pool: Name, asked: bool, counts: Table, allocation: int, budget: int, hold: bool, now: real)
      returns (granted: int)
      requires pool in counts
      modifies this`reservations
      ensures var kept := Kept(old(reservations), counts, now);
              && granted == Grant(counts, kept, pool, allocation, budget, hold)
              && reservations == AfterGrant(counts, kept, pool, asked, granted, now)
    {
      DropReservations(counts, now);
      granted := Min(allocation, Room(counts, reservations, pool, budget));
      if hold || pool in reservations {
        granted := Min(granted, counts[pool]);
      }
      if asked && granted > counts[pool] {
        reservations := reservations[pool := Reservation(granted, now)];
      }
    }

    method FileRequest(pool: Name, desired: Option<int>, sample: Sample, now: real) returns (ceiling: int)
      modifies this`requests, this`history, this`clock
      ensures requests == Filed(old(requests), pool, desired, now)
      ensures history == NextHistory(old(history), sample.rss, now)
      ensures clock == Tick(old(clock), Seen(now, Pressured(sample)))
      ensures ceiling == Ceiling(sample, Percentile95(Costs(history)), clock.since, now)
    {
      ceiling := MeasuredCeiling(sample, now);
      if desired.Some? {
        requests := requests[pool := Request(desired.value, now)];
      }
    }

    method Settle(pool: Name, asked: bool, demand: map<Name, Option<nat>>, sample: Sample, now: real, ceiling: int)
      returns (r: Result<Decision, Refusal>)
      requires sample.counts.Keys == demand.Keys == pools && pool in pools
      modifies this`reservations
      ensures r.Err? <==> exists k :: k in pools && MissesTarget(requests, now, k)
      ensures r.Err? ==> r.error.MissingTarget? && reservations == old(reservations)
      ensures r.Ok? ==> r.value.ceiling == ceiling
      ensures r.Ok? ==> Settled(requests, old(reservations), reservations, pool, asked, demand, sample, now, r.value)
    {
      hide SplitAsFiled;
      var pressured, budget := Pressured(sample), Max(0, ceiling - sample.unmanaged);
      var allocations := Apportion(sample.counts, demand, pressured, now, budget);
      if allocations.Err? {
        return Err(allocations.error);
      }
      var granted := GrantPool(pool, asked, sample.counts, allocations.value[pool], budget,
                               pressured || demand[pool].None?, now);
      r := Ok(Decision(granted, ceiling, allocations.value));
    }

    /** One pool's turn. Fails without touching reservations when the pool is unknown
        or a pool lacks a target; otherwise the budget is split as the requests on
        file say, and the pool is granted its part of what the others leave room for. */
    method Decide(pool: Name, desired: Option<int>, demand: map<Name, Option<nat>>, sample: Sample, now: real)
      returns (r: Result<Decision, Refusal>)
      requires sample.counts.Keys == demand.Keys == pools
      modifies this
      ensures r == Err(UnknownPool) <==> pool !in pools
      ensures pool !in pools ==> requests == old(requests) && history == old(history) && clock == old(clock)
      ensures pool in pools ==>
                && requests == Filed(old(requests), pool, desired, now)
                && history == NextHistory(old(history), sample.rss, now)
                && clock == Tick(old(clock), Seen(now, Pressured(sample)))
      ensures pool in pools ==> (r.Err? <==> exists k :: k in pools && MissesTarget(requests, now, k))
      ensures r.Err? ==> reservations == old(reservations)
      ensures r.Ok? ==> r.value.ceiling == Ceiling(sample, Percentile95(Costs(history)), clock.since, now)
      ensures r.Ok? ==> Settled(requests, old(reservations), reservations, pool, desired.Some?, demand, sample, now, r.value)
    {
      if pool !in pools {
        return Err(UnknownPool);
      }
      var ceiling := FileRequest(pool, desired, sample, now);
      r := Settle(pool, desired.Some?, demand, sample, now, ceiling);
    }

    /** A decision that cannot be made, for want of a probe or of a target, holds the
        fleet the caller sees, lets it shrink, and restarts the pressure clock. */
    method Admission(pool: Name, desired: Option<int>, current: int, demand: map<Name, Option<nat>>,
                     probe: Option<Sample>, now: real)
      returns (granted: int, decided: bool)
      requires demand.Keys == pools && (probe.Some? ==> probe.value.counts.Keys == pools)
      modifies this
      ensures !decided ==> granted <= current && reservations == old(reservations) && clock == Tick(old(clock), Lost)
      ensures !decided && desired.Some? ==> granted == Min(desired.value, current)
      ensures !decided && desired.None? ==> granted == current
      ensures decided <==> probe.Some? && pool in pools && forall k :: k in pools ==> !MissesTarget(requests, now, k)
      ensures decided ==> clock == Tick(old(clock), Seen(now, Pressured(probe.value)))
      ensures probe.Some? && pool in pools ==>
                requests == Filed(old(requests), pool, desired, now)
                && history == NextHistory(old(history), probe.value.rss, now)
      ensures probe.None? || pool !in pools ==> requests == old(requests) && history == old(history)
      ensures decided ==>
                exists d: Decision ::
                  && d.granted == granted
                  && d.ceiling == Ceiling(probe.value, Percentile95(Costs(history)), clock.since, now)
                  && Settled(requests, old(reservations), reservations, pool, desired.Some?, demand, probe.value, now, d)
    {
      hide Settled, Ceiling, HostCeiling.NextHistory, Costs, HostCeiling.Percentile95, Filed;
      if probe.Some? {
        var decision := Decide(pool, desired, demand, probe.value, now);
        if decision.Ok? {
          return decision.value.granted, true;
        }
      }
      clock := Clock(None, None);
      granted := if desired.Some? then Min(desired.value, current) else current;
      decided := false;
    }
  }

  // ---- what a grant leaves room for ----

  /** A grant above the pool's size fits in the budget beside all that the others occupy. */
  lemma GrantFits(counts: Table, kept: map<Name, Reservation>, pool: Name, allocation: int, budget: int, hold: bool)
    requires pool in counts && 0 <= counts[pool] && 0 <= budget
    ensures var g := Grant(counts, kept, pool, allocation, budget, hold);
            && g <= allocation
            && (g > counts[pool] ==>
                  !hold && pool !in kept && Sum(Effective(counts, kept), counts.Keys - {pool}) + g <= budget)
  {
  }
}
