/** place of src/placement.rs: an account's worker total placed on its hosts under
    machine headroom, ceilings and per-cycle step limits. */
module Placement {
  import opened Common
  import opened Distribution

  // ---- what a host reports ----

  datatype HostConfig = HostConfig(maxWorkers: Option<U32>, maxUp: Option<U32>, maxDown: Option<U32>,
                                   hasSource: bool, memReserve: nat)

  datatype Fleet = Fleet(maxWorkers: U32, maxUp: U32, maxDown: U32, staleAfter: nat)

  datatype Snapshot = Snapshot(age: int, isFresh: bool, cpuAvailable: real, memAvailable: nat, memTotal: nat)

  function Or(x: Option<U32>, default: U32): U32 { if x.Some? then x.value else default }

  function Clamp01(x: real): real { if x < 0.0 then 0.0 else if x > 1.0 then 1.0 else x }

  function MinReal(a: real, b: real): real { if a <= b then a else b }

  /** A host's freshness and headroom. */
  function Reading(host: HostConfig, snapshot: Option<Snapshot>, staleAfter: nat): (r: (bool, real))
    ensures 0.0 <= r.1 <= 1.0
    ensures !r.0 ==> r.1 == 0.0
    ensures r.0 <==> !host.hasSource || (snapshot.Some? && snapshot.value.isFresh && snapshot.value.age <= staleAfter)
  {
    if !host.hasSource then (true, 1.0)
    else if snapshot.None? || !snapshot.value.isFresh || Max(0, snapshot.value.age) > staleAfter then (false, 0.0)
    else
      var x := snapshot.value;
      var memory := if x.memTotal == 0 then 0.0 else (x.memAvailable - host.memReserve) as real / x.memTotal as real;
      (true, Clamp01(MinReal(x.cpuAvailable, memory)))
  }

  /** A fresh host with a source has a headroom of at least x exactly when x of its
      processors and x of its memory beyond the reserve are free. */
  lemma ReadingIsScarcest(host: HostConfig, snapshot: Snapshot, staleAfter: nat, x: real)
    requires host.hasSource && Reading(host, Some(snapshot), staleAfter).0 && 0.0 < x <= 1.0
    ensures x <= Reading(host, Some(snapshot), staleAfter).1
            <==> x <= snapshot.cpuAvailable && 0 < snapshot.memTotal
                 && x * snapshot.memTotal as real <= (snapshot.memAvailable - host.memReserve) as real
  {
    if snapshot.memTotal > 0 {
      ShareOfMemory(x, (snapshot.memAvailable - host.memReserve) as real, snapshot.memTotal as real);
    }
  }

  lemma ShareOfMemory(x: real, free: real, total: real)
    requires 0.0 < total
    ensures x <= free / total <==> x * total <= free
  {
    var share := free / total;
    assert share * total == free;
    assert (share - x) * total == free - x * total;
    assert (share - x) * total >= 0.0 <==> share - x >= 0.0;
  }

  /** What one cycle knows of the hosts. */
  datatype View = View(current: Table, ceiling: Table, up: Table, down: Table,
                       headroom: Headroom, isFresh: map<Name, bool>)
  {
    ghost predicate Valid(hosts: set<Name>) {
      && current.Keys == ceiling.Keys == up.Keys == down.Keys == headroom.Keys == isFresh.Keys == hosts
      && forall h :: h in hosts ==>
           && 0 <= current[h] <= U32_MAX && 0 <= ceiling[h] <= U32_MAX
           && 0 <= up[h] && 0 <= down[h] && 0.0 <= headroom[h]
    }
  }

  function ViewOf(fleet: Fleet, hosts: map<Name, HostConfig>, current: map<Name, U32>, resources: map<Name, Snapshot>)
    : (v: View)
    ensures v.Valid(hosts.Keys)
  {
    View(map h | h in hosts :: if h in current then current[h] else 0,
         map h | h in hosts :: Or(hosts[h].maxWorkers, fleet.maxWorkers),
         map h | h in hosts :: Or(hosts[h].maxUp, fleet.maxUp),
         map h | h in hosts :: Or(hosts[h].maxDown, fleet.maxDown),
         map h | h in hosts :: ReadingOf(fleet, hosts, resources, h).1,
         map h | h in hosts :: ReadingOf(fleet, hosts, resources, h).0)
  }

  function ReadingOf(fleet: Fleet, hosts: map<Name, HostConfig>, resources: map<Name, Snapshot>, h: Name): (r: (bool, real))
    requires h in hosts
    ensures 0.0 <= r.1
  {
    Reading(hosts[h], if h in resources then Some(resources[h]) else None, fleet.staleAfter)
  }

  function Eligible(v: View): set<Name>
    requires v.isFresh.Keys == v.headroom.Keys
  {
    set h | h in v.isFresh && v.isFresh[h] && v.headroom[h] > 0.0
  }

  // ---- step limits ----

  function ApplyStepLimit(desired: int, current: int, ceiling: int, up: int, down: int): int {
    var bounded := Min(desired, ceiling);
    var stepped := if bounded > current then Min(bounded, Min(current + up, U32_MAX)) else Max(bounded, Max(0, current - down));
    Min(stepped, ceiling)
  }

  function Stepped(v: View, wanted: int, h: Name): int
    requires h in v.current && h in v.ceiling && h in v.up && h in v.down
  {
    ApplyStepLimit(wanted, v.current[h], v.ceiling[h], v.up[h], v.down[h])
  }

  /** The ceiling always holds. Within it, a host moves toward the desired count,
      never past it, and no further than its step limits. */
  lemma StepLimitMoves(desired: nat, current: U32, ceiling: U32, up: nat, down: nat)
    ensures var t, goal := ApplyStepLimit(desired, current, ceiling, up, down), Min(desired, ceiling);
            && 0 <= t <= ceiling
            && (current <= goal ==> current <= t <= goal && t <= current + up && (0 < up && current < goal ==> current < t))
            && (goal <= current ==> goal <= t <= current && (0 < down && goal < current ==> t < current))
            && (current <= ceiling ==> current - down <= t)
            && ApplyStepLimit(t, current, ceiling, up, down) == t
  {
  }

  // ---- one cycle ----

  /** What a host is meant to hold before its step limit: its part of the split if
      it is eligible; otherwise what it has while the account is not shrinking or no
      host is eligible, and nothing while it is. */
  function Wanted(v: View, stable: bool, split: Table, h: Name): int
    requires v.isFresh.Keys == v.headroom.Keys == split.Keys == v.current.Keys && h in v.current
  {
    if h in Eligible(v) then split[h] else if stable || Eligible(v) == {} then v.current[h] else 0
  }

  predicate Stable(v: View, accountTarget: U32) {
    Min(Sum(v.current, v.current.Keys), U32_MAX) <= accountTarget
  }

  /** The workers the ineligible hosts keep, as the saturating sum sees them. */
  function Withheld(v: View, accountTarget: U32): (w: nat)
    requires v.current.Keys == v.ceiling.Keys == v.up.Keys == v.down.Keys == v.isFresh.Keys == v.headroom.Keys
  {
    Max(0, Min(Sum(Ineligibles(v, accountTarget), v.current.Keys - Eligible(v)), U32_MAX))
  }

  function Ineligibles(v: View, accountTarget: U32): (t: Table)
    requires v.current.Keys == v.ceiling.Keys == v.up.Keys == v.down.Keys == v.isFresh.Keys == v.headroom.Keys
    ensures t.Keys == v.current.Keys - Eligible(v)
  {
    map h | h in v.current && h !in Eligible(v) ::
      Stepped(v, if Stable(v, accountTarget) then v.current[h] else 0, h)
  }

  /** The placement of a cycle: what the ineligible hosts keep is set aside, the rest
      is distributed over the eligible ones, and every host steps toward its part. */
  ghost predicate Placed(v: View, accountTarget: U32, split: Table, target: Table)
    requires v.Valid(v.current.Keys)
  {
    && target.Keys == v.current.Keys
    && split.Keys == v.current.Keys
    && (Eligible(v) != {} ==> Shared(v, accountTarget, split))
    && forall h :: h in target ==> target[h] == Stepped(v, Wanted(v, Stable(v, accountTarget), split, h), h)
  }

  /** The eligible hosts split what the others leave of the account's target. */
  ghost predicate Shared(v: View, accountTarget: U32, split: Table)
    requires v.Valid(v.current.Keys)
  {
    IsDistribution(SatSub(accountTarget, Withheld(v, accountTarget)), Eligible(v), v.headroom, v.ceiling,
                   v.current.Keys, split)
  }

  method SaturatingTotal(t: Table, s: set<Name>) returns (total: nat)
    requires s <= t.Keys && forall k :: k in s ==> 0 <= t[k]
    ensures total == Min(Sum(t, s), U32_MAX)
  {
    total := 0;
    var todo := s;
    while todo != {}
      invariant todo <= s && total == Min(Sum(t, s - todo), U32_MAX)
      decreases todo
    {
      Inhabited(todo);
      var k :| k in todo;
      SumPick(t, s - (todo - {k}), k);
      assert s - (todo - {k}) - {k} == s - todo;
      SumNonNegative(t, s - todo);
      total := SatAdd(total, t[k]);
      todo := todo - {k};
    }
    assert s - todo == s;
  }

  lemma AscendingStep(s: set<Name>, k: Name, rest: seq<Name>)
    requires k in s && (forall j :: j in s ==> k <= j) && StrictlyAscending(rest) && Elements(rest) == s - {k}
    ensures StrictlyAscending([k] + rest) && Elements([k] + rest) == s
  {
    forall i | 0 <= i < |rest| ensures k < rest[i] {
      assert rest[i] in Elements(rest);
    }
    assert Elements([k] + rest) == {k} + Elements(rest);
  }

  function Ascending(s: set<Name>): (r: seq<Name>)
    ensures StrictlyAscending(r) && Elements(r) == s
  {
    if s == {} then []
    else
      var k := Least(s);
      AscendingStep(s, k, Ascending(s - {k}));
      [k] + Ascending(s - {k})
  }

  datatype HostPlacement = HostPlacement(current: int, target: int, ceiling: int, headroom: real, isFresh: bool, eligible: bool)

  function Targets(placements: map<Name, HostPlacement>): (t: Table)
    ensures t.Keys == placements.Keys
  {
    map h | h in placements :: placements[h].target
  }

  predicate Reports(v: View, h: Name, p: HostPlacement)
    requires h in v.current && h in v.ceiling && h in v.headroom && h in v.isFresh && v.isFresh.Keys == v.headroom.Keys
  {
    p == HostPlacement(v.current[h], p.target, v.ceiling[h], v.headroom[h], v.isFresh[h], h in Eligible(v))
  }

  method IneligibleTargets(v: View, stable: bool) returns (kept: Table)
    requires v.Valid(v.current.Keys)
    ensures kept.Keys == v.current.Keys - Eligible(v)
    ensures forall h :: h in kept ==> kept[h] == Stepped(v, if stable then v.current[h] else 0, h)
  {
    kept := map[];
    var todo := v.current.Keys;
    while todo != {}
      invariant todo <= v.current.Keys && kept.Keys == v.current.Keys - todo - Eligible(v)
      invariant forall h :: h in kept ==> kept[h] == Stepped(v, if stable then v.current[h] else 0, h)
      decreases todo
    {
      Inhabited(todo);
      var h :| h in todo;
      if h !in Eligible(v) {
        kept := kept[h := Stepped(v, if stable then v.current[h] else 0, h)];
      }
      todo := todo - {h};
    }
  }

  /** A kept target is already within its step limit, so stepping it again keeps it. */
  lemma KeptIsStepped(v: View, stable: bool, h: Name)
    requires v.Valid(v.current.Keys) && h in v.current
    ensures var w := if stable then v.current[h] else 0;
            Stepped(v, Stepped(v, w, h), h) == Stepped(v, w, h)
  {
  }

  method StepAll(v: View, raw: Table) returns (r: map<Name, HostPlacement>)
    requires v.Valid(v.current.Keys) && raw.Keys == v.current.Keys
    ensures r.Keys == v.current.Keys
    ensures forall h :: h in r ==> Reports(v, h, r[h]) && r[h].target == Stepped(v, raw[h], h)
  {
    r := map h | h in v.current ::
      HostPlacement(v.current[h], Stepped(v, raw[h], h), v.ceiling[h], v.headroom[h], v.isFresh[h], h in Eligible(v));
  }

  method Share(v: View, accountTarget: U32, withheld: nat) returns (split: Table)
    requires v.Valid(v.current.Keys) && withheld == Withheld(v, accountTarget)
    ensures split.Keys == v.current.Keys && Shared(v, accountTarget, split)
  {
    split := Distribute(SatSub(accountTarget, withheld), Ascending(Eligible(v)), v.headroom, v.ceiling,
                                     v.current.Keys);
  }

  method Withhold(v: View, accountTarget: U32) returns (kept: Table, withheld: nat)
    requires v.Valid(v.current.Keys)
    ensures kept == Ineligibles(v, accountTarget) && withheld == Withheld(v, accountTarget)
  {
    var total := SaturatingTotal(v.current, v.current.Keys);
    kept := IneligibleTargets(v, accountTarget >= total);
    SameTable(kept, Ineligibles(v, accountTarget));
    withheld := SaturatingTotal(kept, kept.Keys);
  }

  lemma PlacedFromRaw(v: View, accountTarget: U32, split: Table, raw: Table, target: Table)
    requires v.Valid(v.current.Keys) && split.Keys == raw.Keys == target.Keys == v.current.Keys
    requires Eligible(v) != {} ==> Shared(v, accountTarget, split)
    requires forall h :: h in raw ==>
               raw[h] == if Eligible(v) == {} then v.current[h]
                         else if h in Eligible(v) then split[h] else Ineligibles(v, accountTarget)[h]
    requires forall h :: h in target ==> target[h] == Stepped(v, raw[h], h)
    ensures Placed(v, accountTarget, split, target)
  {
    forall h | h in target
      ensures target[h] == Stepped(v, Wanted(v, Stable(v, accountTarget), split, h), h)
    {
      KeptIsStepped(v, Stable(v, accountTarget), h);
    }
  }

  method PlaceView(v: View, accountTarget: U32) returns (r: map<Name, HostPlacement>, split: Table)
    requires v.Valid(v.current.Keys)
    ensures r.Keys == v.current.Keys && forall h :: h in r ==> Reports(v, h, r[h])
    ensures Placed(v, accountTarget, split, Targets(r))
  {
    hide Shared, Withheld, ApplyStepLimit, Eligible, Placed;
    var kept, withheld := Withhold(v, accountTarget);
    var raw: Table := v.current;
    split := v.current;
    if Eligible(v) != {} {
      split := Share(v, accountTarget, withheld);
      raw := split + kept;
    }
    r := StepAll(v, raw);
    PlacedFromRaw(v, accountTarget, split, raw, Targets(r));
  }

  /** Places the account's target. Fails only for an account without hosts. */
  method Place(accountTarget: U32, fleet: Fleet, hosts: map<Name, HostConfig>, current: map<Name, U32>,
               resources: map<Name, Snapshot>)
    returns (r: Result<map<Name, HostPlacement>, string>)
    ensures r.Err? <==> hosts == map[]
    ensures r.Ok? ==>
              var v := ViewOf(fleet, hosts, current, resources);
              && r.value.Keys == hosts.Keys
              && (forall h :: h in r.value ==> Reports(v, h, r.value[h]))
              && exists split :: Placed(v, accountTarget, split, Targets(r.value))
  {
    hide Placed, Reports, Targets, ViewOf;
    if hosts == map[] {
      return Err("place requires a non-empty fleet.hosts configuration");
    }
    var placements, split := PlaceView(ViewOf(fleet, hosts, current, resources), accountTarget);
    r := Ok(placements);
  }

  // ---- what a placement keeps ----

  /** A wanted count is a count. */
  lemma WantedIsCount(v: View, accountTarget: U32, split: Table, target: Table, h: Name)
    requires v.Valid(v.current.Keys) && Placed(v, accountTarget, split, target) && h in target
    ensures 0 <= Wanted(v, Stable(v, accountTarget), split, h)
    ensures h in Eligible(v) ==> split[h] <= v.ceiling[h]
  {
    if h in Eligible(v) {
      BasesFit(SatSub(accountTarget, Withheld(v, accountTarget)), Eligible(v), v.headroom, v.ceiling);
    }
  }

  /** No host ends past its ceiling, no ineligible host is raised, and no host within
      its ceiling moves further than its step limits. */
  lemma PlacementBounds(v: View, accountTarget: U32, split: Table, target: Table, h: Name)
    requires v.Valid(v.current.Keys) && Placed(v, accountTarget, split, target) && h in target
    ensures 0 <= target[h] <= v.ceiling[h]
    ensures h !in Eligible(v) ==> target[h] <= v.current[h]
    ensures target[h] <= v.current[h] + v.up[h]
    ensures v.current[h] <= v.ceiling[h] ==> v.current[h] - v.down[h] <= target[h]
  {
    WantedIsCount(v, accountTarget, split, target, h);
    var wanted := Wanted(v, Stable(v, accountTarget), split, h);
    hide Placed;
    StepLimitMoves(wanted, v.current[h], v.ceiling[h], v.up[h], v.down[h]);
  }

  /** A setting of the host itself, or else the fleet's. */
  predicate InEffect(own: Option<U32>, fleets: U32, x: int) {
    (own.Some? && x == own.value) || (own.None? && x == fleets)
  }

  /** In the configuration's own terms: each host ends under its own ceiling, or the fleet's
      where it has none, within its own or the fleet's steps, and starts from no workers
      where none are reported; a host that is unread, stale or without headroom is not raised. */
  lemma PlacementFollowsConfig(accountTarget: U32, fleet: Fleet, hosts: map<Name, HostConfig>, current: map<Name, U32>,
                               resources: map<Name, Snapshot>, split: Table, target: Table, h: Name,
                               ceiling: U32, up: U32, down: U32)
    requires h in hosts && Placed(ViewOf(fleet, hosts, current, resources), accountTarget, split, target)
    requires InEffect(hosts[h].maxWorkers, fleet.maxWorkers, ceiling)
    requires InEffect(hosts[h].maxUp, fleet.maxUp, up) && InEffect(hosts[h].maxDown, fleet.maxDown, down)
    ensures var v := ViewOf(fleet, hosts, current, resources);
            v.ceiling[h] == ceiling && v.current[h] == (if h in current then current[h] else 0)
            && v.headroom[h] == Reading(hosts[h], if h in resources then Some(resources[h]) else None, fleet.staleAfter).1
            && v.isFresh[h] == Reading(hosts[h], if h in resources then Some(resources[h]) else None, fleet.staleAfter).0
    ensures h in target && 0 <= target[h] <= ceiling
    ensures h !in current ==> target[h] <= up
    ensures h in current ==> target[h] <= current[h] + up && (current[h] <= ceiling ==> current[h] - down <= target[h])
    ensures hosts[h].hasSource
            && (h !in resources || !resources[h].isFresh || fleet.staleAfter < resources[h].age)
            ==> target[h] <= if h in current then current[h] else 0
    ensures Reading(hosts[h], if h in resources then Some(resources[h]) else None, fleet.staleAfter).1 <= 0.0
            ==> target[h] <= if h in current then current[h] else 0
  {
    var v := ViewOf(fleet, hosts, current, resources);
    assert h in target;
    hide Placed;
    PlacementBounds(v, accountTarget, split, target, h);
  }

  /** What each host is meant to hold, within its ceiling. */
  function Goals(v: View, accountTarget: U32, split: Table): (g: Table)
    requires v.Valid(v.current.Keys) && split.Keys == v.current.Keys
    ensures g.Keys == v.current.Keys
  {
    map h | h in v.current :: Min(Wanted(v, Stable(v, accountTarget), split, h), v.ceiling[h])
  }

  /** How far the down-step limit will hold each host above its goal. */
  function Overhang(v: View, goals: Table): (t: Table)
    requires v.Valid(goals.Keys)
    ensures t.Keys == goals.Keys
  {
    map h | h in goals :: Max(0, Min(v.ceiling[h], v.current[h] - v.down[h]) - goals[h])
  }

  /** How far the up-step limit will keep each host below its goal. */
  function Shortfall(v: View, goals: Table): (t: Table)
    requires v.Valid(goals.Keys)
    ensures t.Keys == goals.Keys
  {
    map h | h in goals :: Max(0, goals[h] - v.current[h] - v.up[h])
  }

  lemma {:induction false} SumBalance(a: Table, b: Table, c: Table, d: Table, s: set<Name>)
    requires s <= a.Keys && s <= b.Keys && s <= c.Keys && s <= d.Keys
    requires forall h :: h in s ==> a[h] + b[h] == c[h] + d[h]
    ensures Sum(a, s) + Sum(b, s) == Sum(c, s) + Sum(d, s)
  {
    if s != {} {
      SumBalance(a, b, c, d, s - {Least(s)});
    }
  }

  lemma StepBalance(wanted: nat, current: U32, ceiling: U32, up: nat, down: nat)
    ensures var goal := Min(wanted, ceiling);
            ApplyStepLimit(wanted, current, ceiling, up, down) + Max(0, goal - current - up)
            == goal + Max(0, Min(ceiling, current - down) - goal)
  {
  }

  /** An ineligible host keeps at least its goal. */
  lemma GoalsUnderKept(v: View, accountTarget: U32, split: Table, h: Name)
    requires v.Valid(v.current.Keys) && split.Keys == v.current.Keys && h in v.current && h !in Eligible(v)
    requires Eligible(v) != {}
    ensures 0 <= Goals(v, accountTarget, split)[h] <= Ineligibles(v, accountTarget)[h]
    ensures Goals(v, accountTarget, split)[h] <= if Stable(v, accountTarget) then v.current[h] else 0
    ensures Stable(v, accountTarget) ==> Goals(v, accountTarget, split)[h] == Ineligibles(v, accountTarget)[h]
  {
  }

  /** The ineligible hosts' workers, if they are kept, can be counted in 32 bits. */
  predicate KeptCountable(v: View, accountTarget: U32)
    requires v.current.Keys == v.ceiling.Keys == v.up.Keys == v.down.Keys == v.isFresh.Keys == v.headroom.Keys
  {
    Stable(v, accountTarget) ==> Sum(Ineligibles(v, accountTarget), v.current.Keys - Eligible(v)) <= U32_MAX
  }

  lemma GoalsOutside(v: View, accountTarget: U32, split: Table)
    requires v.Valid(v.current.Keys) && split.Keys == v.current.Keys && Eligible(v) != {}
    ensures var goals, kept, rest := Goals(v, accountTarget, split), Ineligibles(v, accountTarget), v.current.Keys - Eligible(v);
            && 0 <= Sum(kept, rest)
            && (Stable(v, accountTarget) ==> Sum(kept, rest) <= Sum(v.current, v.current.Keys))
            && Sum(goals, rest) == if Stable(v, accountTarget) then Sum(kept, rest) else 0
  {
    var goals, kept, rest := Goals(v, accountTarget, split), Ineligibles(v, accountTarget), v.current.Keys - Eligible(v);
    forall h | h in rest
      ensures 0 <= goals[h] <= kept[h] && goals[h] <= if Stable(v, accountTarget) then v.current[h] else 0
      ensures Stable(v, accountTarget) ==> goals[h] == kept[h]
    {
      GoalsUnderKept(v, accountTarget, split, h);
    }
    CountsOf(v);
    hide *;
    SumNonNegative(kept, rest);
    SumNonNegative(v.current, Eligible(v));
    SumSplit(v.current, v.current.Keys, Eligible(v));
    if Stable(v, accountTarget) {
      SumAgree(goals, kept, rest);
      SumLe(goals, v.current, rest);
    } else {
      SumConstant(goals, rest, 0);
    }
  }

  lemma SharedSplit(v: View, accountTarget: U32, split: Table)
    requires v.Valid(v.current.Keys) && Shared(v, accountTarget, split)
    ensures split.Keys == v.current.Keys && forall h :: h in Eligible(v) ==> 0 <= split[h] <= v.ceiling[h]
    ensures 0 <= Sum(split, Eligible(v)) <= SatSub(accountTarget, Withheld(v, accountTarget))
  {
    BasesFit(SatSub(accountTarget, Withheld(v, accountTarget)), Eligible(v), v.headroom, v.ceiling);
    hide Bases, Greedy, Withheld, Eligible;
    SumNonNegative(split, Eligible(v));
  }

  lemma SharedGoals(v: View, accountTarget: U32, split: Table)
    requires v.Valid(v.current.Keys) && Shared(v, accountTarget, split) && split.Keys == v.current.Keys
    ensures 0 <= Sum(Goals(v, accountTarget, split), Eligible(v)) <= SatSub(accountTarget, Withheld(v, accountTarget))
  {
    hide Shared, Withheld, Stable;
    SharedSplit(v, accountTarget, split);
    SumAgree(Goals(v, accountTarget, split), split, Eligible(v));
  }

  /** With some host eligible the goals together fit the account's target, except when
      a stable account's ineligible hosts hold more workers than 32 bits can count. */
  lemma GoalsFit(v: View, accountTarget: U32, split: Table, target: Table)
    requires v.Valid(v.current.Keys) && Placed(v, accountTarget, split, target) && Eligible(v) != {}
    ensures Sum(Goals(v, accountTarget, split), v.current.Keys) <= accountTarget <==> KeptCountable(v, accountTarget)
  {
    assert Eligible(v) <= v.current.Keys;
    hide Shared, Goals, Ineligibles, Eligible, Sum;
    GoalsOutside(v, accountTarget, split);
    SharedGoals(v, accountTarget, split);
    SumSplit(Goals(v, accountTarget, split), v.current.Keys, Eligible(v));
  }

  /** What one host is given is its goal, plus what its down-step will hold on to, less
      what its up-step will hold back. */
  lemma PlacedHost(v: View, accountTarget: U32, split: Table, target: Table, h: Name)
    requires v.Valid(v.current.Keys) && Placed(v, accountTarget, split, target) && h in target
    ensures var goals := Goals(v, accountTarget, split);
            target[h] + Shortfall(v, goals)[h] == goals[h] + Overhang(v, goals)[h]
  {
    hide Shared, Wanted, Stable, ApplyStepLimit;
    WantedIsCount(v, accountTarget, split, target, h);
    WantedSteps(v, accountTarget, split, target, h);
    hide Placed, Eligible;
    StepBalance(Wanted(v, Stable(v, accountTarget), split, h), v.current[h], v.ceiling[h], v.up[h], v.down[h]);
  }

  lemma WantedSteps(v: View, accountTarget: U32, split: Table, target: Table, h: Name)
    requires v.Valid(v.current.Keys) && Placed(v, accountTarget, split, target) && h in target
    ensures split.Keys == v.current.Keys == target.Keys
    ensures target[h] == ApplyStepLimit(Wanted(v, Stable(v, accountTarget), split, h), v.current[h], v.ceiling[h], v.up[h], v.down[h])
  {
    hide Shared, Wanted, Stable, ApplyStepLimit, Eligible;
  }

  /** The same of all hosts together. */
  lemma PlacedTotal(v: View, accountTarget: U32, split: Table, target: Table)
    requires v.Valid(v.current.Keys) && Placed(v, accountTarget, split, target)
    ensures var goals, hosts := Goals(v, accountTarget, split), v.current.Keys;
            Sum(target, hosts) + Sum(Shortfall(v, goals), hosts) == Sum(goals, hosts) + Sum(Overhang(v, goals), hosts)
  {
    hide Shared, Goals, Overhang, Shortfall, Stepped;
    var goals := Goals(v, accountTarget, split);
    forall h | h in target
      ensures target[h] + Shortfall(v, goals)[h] == goals[h] + Overhang(v, goals)[h]
    {
      PlacedHost(v, accountTarget, split, target, h);
    }
    SumBalance(target, Shortfall(v, goals), goals, Overhang(v, goals), v.current.Keys);
  }

  /** The account's target is kept if and only if what the down-steps will hold on to
      fits in what the goals leave of it and the up-steps will hold back. */
  lemma TargetKeptExactly(v: View, accountTarget: U32, split: Table, target: Table)
    requires v.Valid(v.current.Keys) && Placed(v, accountTarget, split, target)
    ensures var goals, hosts := Goals(v, accountTarget, split), v.current.Keys;
            Sum(target, hosts) <= accountTarget
            <==> Sum(Overhang(v, goals), hosts) <= accountTarget - Sum(goals, hosts) + Sum(Shortfall(v, goals), hosts)
  {
    hide Placed, Goals, Overhang, Shortfall;
    PlacedTotal(v, accountTarget, split, target);
  }

  /** With some host eligible the target is passed by at most what the down-steps hold
      on to, less what the up-steps hold back, if and only if the goals fit it. */
  lemma TotalWithinHeld(v: View, accountTarget: U32, split: Table, target: Table)
    requires v.Valid(v.current.Keys) && Placed(v, accountTarget, split, target) && Eligible(v) != {}
    ensures var goals, hosts := Goals(v, accountTarget, split), v.current.Keys;
            Sum(target, hosts) + Sum(Shortfall(v, goals), hosts) <= accountTarget + Sum(Overhang(v, goals), hosts)
            <==> KeptCountable(v, accountTarget)
  {
    hide Placed, Goals, Overhang, Shortfall, KeptCountable;
    PlacedTotal(v, accountTarget, split, target);
    GoalsFit(v, accountTarget, split, target);
  }

  // ---- repeated placement ----

  function At(v: View, state: Table): View { v.(current := state) }

  /** Every host is eligible and may move at least one worker each way. */
  ghost predicate AllMovable(v: View) {
    && v.Valid(v.current.Keys) && v.current.Keys != {}
    && forall h :: h in v.current ==> v.isFresh[h] && v.headroom[h] > 0.0 && 0 < v.up[h] && 0 < v.down[h]
  }

  /** One cycle in which only the hosts' counts change, each to its target. */
  ghost predicate Cycle(v: View, accountTarget: U32, before: Table, after: Table) {
    && At(v, before).Valid(v.current.Keys) && At(v, after).Valid(v.current.Keys)
    && exists split :: Placed(At(v, before), accountTarget, split, after)
  }

  ghost predicate Cycles(v: View, accountTarget: U32, states: seq<Table>) {
    && states != [] && states[0] == v.current
    && forall n :: 0 < n < |states| ==> Cycle(v, accountTarget, states[n - 1], states[n])
  }

  /** The split of the whole target over all hosts. */
  ghost predicate FullSplit(v: View, accountTarget: U32, split: Table)
    requires v.Valid(v.current.Keys)
  {
    IsDistribution(accountTarget, v.current.Keys, v.headroom, v.ceiling, v.current.Keys, split)
  }

  predicate Near(split: Table, state: Table, n: int) {
    forall h :: h in split && h in state ==> split[h] - n <= state[h] <= split[h] + n
  }

  lemma NothingWithheld(v: View, accountTarget: U32)
    requires v.Valid(v.current.Keys) && Eligible(v) == v.current.Keys
    ensures Withheld(v, accountTarget) == 0
  {
    assert v.current.Keys - Eligible(v) == {};
  }

  lemma MovableEligible(v: View, state: Table)
    requires AllMovable(v)
    ensures Eligible(At(v, state)) == v.current.Keys
  {
    assert v.isFresh.Keys == v.headroom.Keys == v.current.Keys;
    forall h | h in v.current ensures h in Eligible(At(v, state)) {
      assert h in v.isFresh;
    }
  }

  lemma AllEligibleSplit(v: View, accountTarget: U32, split: Table, after: Table)
    requires v.Valid(v.current.Keys) && Eligible(v) == v.current.Keys != {} && Placed(v, accountTarget, split, after)
    ensures FullSplit(v, accountTarget, split)
    ensures after.Keys == v.current.Keys && forall h :: h in after ==> after[h] == Stepped(v, split[h], h)
  {
    NothingWithheld(v, accountTarget);
    hide IsDistribution, Withheld, Stepped, Stable, Eligible;
  }

  lemma MovableSplit(v: View, accountTarget: U32, state: Table, split: Table, after: Table)
    requires AllMovable(v) && At(v, state).Valid(v.current.Keys) && Placed(At(v, state), accountTarget, split, after)
    ensures FullSplit(v, accountTarget, split)
    ensures after.Keys == v.current.Keys && forall h :: h in after ==> after[h] == Stepped(At(v, state), split[h], h)
  {
    hide Placed, IsDistribution, ApplyStepLimit, Eligible;
    MovableEligible(v, state);
    AllEligibleSplit(At(v, state), accountTarget, split, after);
  }

  lemma SplitWithinCeilings(v: View, accountTarget: U32, split: Table)
    requires v.Valid(v.current.Keys) && FullSplit(v, accountTarget, split)
    ensures split.Keys == v.current.Keys && forall h :: h in split ==> 0 <= split[h] <= v.ceiling[h]
  {
    BasesFit(accountTarget, v.current.Keys, v.headroom, v.ceiling);
  }

  lemma CountsOf(v: View)
    requires v.Valid(v.current.Keys)
    ensures forall h :: h in v.current ==> 0 <= v.current[h] <= U32_MAX
  {
  }

  lemma CycleSplit(v: View, accountTarget: U32, split: Table, before: Table, after: Table)
    requires AllMovable(v) && FullSplit(v, accountTarget, split) && Cycle(v, accountTarget, before, after)
    ensures before.Keys == after.Keys == split.Keys == v.current.Keys
    ensures forall h :: h in before ==> 0 <= before[h] <= U32_MAX
    ensures forall h :: h in after ==> after[h] == Stepped(At(v, before), split[h], h)
  {
    hide ApplyStepLimit, Eligible, IsDistribution, Withheld, Shared;
    var s :| Placed(At(v, before), accountTarget, s, after);
    CountsOf(At(v, before));
    MovableSplit(v, accountTarget, before, s, after);
    hide Placed;
    DistributionIsUnique(accountTarget, v.current.Keys, v.headroom, v.ceiling, v.current.Keys, s, split);
  }

  lemma StepNears(goal: nat, current: U32, ceiling: U32, up: nat, down: nat, n: nat)
    requires goal <= ceiling && 0 < up && 0 < down && goal - n <= current <= goal + n
    ensures goal - SatSub(n, 1) <= ApplyStepLimit(goal, current, ceiling, up, down) <= goal + SatSub(n, 1)
  {
    StepLimitMoves(goal, current, ceiling, up, down);
  }

  lemma CycleNears(v: View, accountTarget: U32, split: Table, before: Table, after: Table, n: nat)
    requires AllMovable(v) && FullSplit(v, accountTarget, split) && Cycle(v, accountTarget, before, after)
    requires Near(split, before, n)
    ensures Near(split, after, SatSub(n, 1))
  {
    hide Placed, Cycle, FullSplit, IsDistribution, ApplyStepLimit;
    SplitWithinCeilings(v, accountTarget, split);
    CycleSplit(v, accountTarget, split, before, after);
    forall h | h in after
      ensures split[h] - SatSub(n, 1) <= after[h] <= split[h] + SatSub(n, 1)
    {
      StepNears(split[h], before[h], v.ceiling[h], v.up[h], v.down[h], n);
    }
  }

  /** With every host eligible, headroom fixed and steps of at least one, the hosts
      reach the split within as many cycles as the largest distance from it, and stay. */
  lemma {:induction false} PlacementSettles(v: View, accountTarget: U32, split: Table, states: seq<Table>, n: nat, k: nat)
    requires AllMovable(v) && FullSplit(v, accountTarget, split) && Cycles(v, accountTarget, states)
    requires Near(split, v.current, n) && k < |states|
    ensures Near(split, states[k], SatSub(n, k))
    ensures n <= k ==> states[k] == split
  {
    hide AllMovable, FullSplit;
    if k > 0 {
      PlacementSettles(v, accountTarget, split, states, n, k - 1);
      assert Cycle(v, accountTarget, states[k - 1], states[k]);
      hide Cycle;
      CycleNears(v, accountTarget, split, states[k - 1], states[k], SatSub(n, k - 1));
    }
    if n <= k {
      StateKeys(v, accountTarget, split, states, k);
      SameTable(states[k], split);
    }
  }

  lemma StateKeys(v: View, accountTarget: U32, split: Table, states: seq<Table>, k: nat)
    requires AllMovable(v) && FullSplit(v, accountTarget, split) && Cycles(v, accountTarget, states) && k < |states|
    ensures states[k].Keys == v.current.Keys == split.Keys
  {
    SplitWithinCeilings(v, accountTarget, split);
    if k > 0 {
      assert Cycle(v, accountTarget, states[k - 1], states[k]);
    }
  }

  // ---- the target can be exceeded ----

  /** Two equal hosts, ten workers on the first, steps of one down and five up. */
  ghost predicate Lopsided(v: View) {
    && v.Valid(v.current.Keys) && v.current.Keys == {1, 2}
    && v.isFresh[1] && v.isFresh[2] && v.headroom[1] == v.headroom[2] == 1.0
    && v.current[1] == 10 && v.current[2] == 0 && v.ceiling[1] == v.ceiling[2] == 10
    && v.up[1] == v.up[2] == 5 && v.down[1] == v.down[2] == 1
  }

  /** A stable target of ten breaks the condition there: goals of five each leave no
      room for the four workers the down-step holds on to, and fourteen are placed. */
  lemma PlacementCanExceedTarget(v: View, split: Table, target: Table)
    requires Lopsided(v) && Placed(v, 10, split, target)
    ensures var goals, hosts := Goals(v, 10, split), v.current.Keys;
            && Stable(v, 10) && Sum(goals, hosts) == 10
            && Sum(Overhang(v, goals), hosts) == 4 && Sum(Shortfall(v, goals), hosts) == 0
            && Sum(target, hosts) == 14
  {
    hide Placed, Goals, Overhang, Shortfall, Stable;
    LopsidedSplit(v, split, target);
    LopsidedStable(v);
    LopsidedGoals(v, split);
    var goals := Goals(v, 10, split);
    TwoHosts(goals);
    TwoHosts(Overhang(v, goals));
    TwoHosts(Shortfall(v, goals));
    PlacedTotal(v, 10, split, target);
    TargetKeptExactly(v, 10, split, target);
  }

  lemma LopsidedSplit(v: View, split: Table, target: Table)
    requires Lopsided(v) && Placed(v, 10, split, target)
    ensures split.Keys == {1, 2} && split[1] == split[2] == 5 && Eligible(v) == {1, 2}
  {
    LopsidedMovable(v);
    MovableEligible(v, v.current);
    assert At(v, v.current) == v;
    hide IsDistribution, ApplyStepLimit;
    MovableSplit(v, 10, v.current, split, target);
    hide Placed, AllMovable, Eligible;
    EvenSplit(v.headroom, v.ceiling, split);
  }

  lemma LopsidedStable(v: View)
    requires Lopsided(v)
    ensures Stable(v, 10)
  {
    TwoHosts(v.current);
    hide Sum;
  }

  lemma LopsidedGoals(v: View, split: Table)
    requires Lopsided(v) && split.Keys == {1, 2} && split[1] == split[2] == 5 && Eligible(v) == {1, 2}
    ensures var goals := Goals(v, 10, split);
            && goals[1] == goals[2] == 5
            && Overhang(v, goals)[1] == 4 && Overhang(v, goals)[2] == 0
            && Shortfall(v, goals)[1] == Shortfall(v, goals)[2] == 0
  {
    hide Stable, Eligible, Overhang, Shortfall;
    var goals := Goals(v, 10, split);
    assert goals[1] == goals[2] == 5;
    LopsidedSteps(v, goals);
  }

  lemma LopsidedSteps(v: View, goals: Table)
    requires Lopsided(v) && goals.Keys == {1, 2} && goals[1] == goals[2] == 5
    ensures Overhang(v, goals)[1] == 4 && Overhang(v, goals)[2] == 0
    ensures Shortfall(v, goals)[1] == Shortfall(v, goals)[2] == 0
  {
  }

  lemma LopsidedMovable(v: View)
    requires Lopsided(v)
    ensures AllMovable(v)
  {
    assert v.current.Keys == {1, 2};
  }

  lemma EvenSplit(headroom: Headroom, ceiling: Table, split: Table)
    requires {1, 2} == headroom.Keys == ceiling.Keys
    requires headroom[1] == headroom[2] == 1.0 && ceiling[1] == ceiling[2] == 10
    requires IsDistribution(10, {1, 2}, headroom, ceiling, {1, 2}, split)
    ensures split[1] == split[2] == 5
  {
    EvenBases(headroom, ceiling);
    TwoHosts(split);
    TwoHosts(ceiling);
  }

  lemma TwoHosts(t: Table)
    requires {1, 2} <= t.Keys
    ensures Sum(t, {1, 2}) == t[1] + t[2]
  {
    SumPick(t, {1, 2}, 1);
    assert {1, 2} - {1} == {2};
    SumPick(t, {2}, 2);
    assert {2} - {2} == {};
  }

  lemma EvenBases(headroom: Headroom, ceiling: Table)
    requires {1, 2} == headroom.Keys == ceiling.Keys
    requires headroom[1] == headroom[2] == 1.0 && ceiling[1] == ceiling[2] == 10
    ensures var b := Bases(10, {1, 2}, headroom, ceiling); b[1] == b[2] == 5
  {
    var s := {1, 2};
    assert Least(s) == 1 && s - {1} == {2} && Least({2}) == 2 && {2} - {2} == {};
    assert RealSum(headroom, {}) == 0.0;
    assert RealSum(headroom, {2}) == 1.0;
    assert RealSum(headroom, s) == 2.0;
    assert FloorShare(10, 1.0, 2.0) == 5;
  }
}
