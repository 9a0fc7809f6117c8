/** split_account_total and shared_account_total of src/federation.rs: every host
    derives one account total from the same samples and splits it the same way. */
module AccountSplit {
  import opened Common
  import opened Distribution
  import Placement

  datatype Host = Host(id: Name, workers: U32, ceiling: U32, readyDemand: U32)

  predicate UniqueIds(hosts: seq<Host>) {
    forall i, j :: 0 <= i < j < |hosts| ==> hosts[i].id != hosts[j].id
  }

  /** The tables the split works on, by host id. */
  datatype Inputs = Inputs(workers: Table, cap: Table, room: Headroom, ready: Table)
  {
    function Ids(): set<Name> { workers.Keys }

    ghost predicate Valid() {
      && workers.Keys == cap.Keys == room.Keys == ready.Keys
      && forall h :: h in workers ==>
           0 <= workers[h] <= U32_MAX && 0 <= cap[h] <= U32_MAX && 0.0 <= room[h] && 0 <= ready[h] <= U32_MAX
    }
  }

  const NO_INPUTS: Inputs := Inputs(map[], map[], map[], map[])

  function WithHost(x: Inputs, h: Host): Inputs {
    Inputs(x.workers[h.id := h.workers],
           x.cap[h.id := Min(h.ceiling, SatAdd(h.workers, h.readyDemand))],
           x.room[h.id := SatSub(h.ceiling, h.workers) as real],
           x.ready[h.id := h.readyDemand])
  }

  /** The tables collected from a list of hosts. */
  function TableOf(hosts: seq<Host>): (x: Inputs)
    ensures x.Valid()
  {
    if hosts == [] then NO_INPUTS else WithHost(TableOf(hosts[..|hosts| - 1]), hosts[|hosts| - 1])
  }

  method Tables(hosts: seq<Host>) returns (x: Inputs)
    ensures x == TableOf(hosts)
  {
    x := NO_INPUTS;
    var n := 0;
    while n < |hosts|
      invariant n <= |hosts| && x == TableOf(hosts[..n])
    {
      assert hosts[..n + 1][..n] == hosts[..n];
      x := WithHost(x, hosts[n]);
      n := n + 1;
    }
    assert hosts[..n] == hosts;
  }

  /** x holds exactly the hosts' figures. */
  ghost predicate TablesOf(hosts: seq<Host>, x: Inputs) {
    && x.Valid()
    && (forall h :: h in hosts ==> Holds(x, h))
    && forall k :: k in x.workers ==> exists i :: 0 <= i < |hosts| && hosts[i].id == k
  }

  predicate Holds(x: Inputs, h: Host) {
    && h.id in x.workers && h.id in x.cap && h.id in x.room && h.id in x.ready
    && x.workers[h.id] == h.workers
    && x.cap[h.id] == Min(h.ceiling, SatAdd(h.workers, h.readyDemand))
    && x.room[h.id] == SatSub(h.ceiling, h.workers) as real
    && x.ready[h.id] == h.readyDemand
  }

  /** With unique ids the tables hold exactly the hosts' figures. */
  lemma {:induction false} TableOfHosts(hosts: seq<Host>)
    requires UniqueIds(hosts)
    ensures TablesOf(hosts, TableOf(hosts))
  {
    if hosts != [] {
      var n := |hosts| - 1;
      TableOfHosts(hosts[..n]);
      WithOneMore(hosts[..n], TableOf(hosts[..n]), hosts[n]);
      assert hosts == hosts[..n] + [hosts[n]];
    }
  }

  lemma WithOneMore(hosts: seq<Host>, x: Inputs, h: Host)
    requires TablesOf(hosts, x) && forall i :: 0 <= i < |hosts| ==> hosts[i].id != h.id
    ensures TablesOf(hosts + [h], WithHost(x, h))
  {
    var more, y := hosts + [h], WithHost(x, h);
    forall g | g in more ensures Holds(y, g) {
      if g in hosts {
        assert Holds(x, g);
      }
    }
    forall k | k in y.workers ensures exists i :: 0 <= i < |more| && more[i].id == k {
      if k == h.id {
        assert more[|hosts|].id == k;
      } else {
        var i :| 0 <= i < |hosts| && hosts[i].id == k;
        assert more[i].id == k;
      }
    }
  }

  /** The same hosts in another order give the same tables. */
  lemma OrderOfHostsIsLost(hosts: seq<Host>, others: seq<Host>)
    requires multiset(hosts) == multiset(others) && UniqueIds(hosts) && UniqueIds(others)
    ensures TableOf(hosts) == TableOf(others)
  {
    hide TableOf, UniqueIds;
    TableOfHosts(hosts);
    TableOfHosts(others);
    var x, y := TableOf(hosts), TableOf(others);
    forall h ensures h in hosts <==> h in others {
      assert h in multiset(hosts) <==> h in multiset(others);
    }
    Covered(hosts, others, x, y);
    Covered(others, hosts, y, x);
    hide TablesOf;
    assert forall k :: k in x.workers.Keys <==> k in y.workers.Keys;
    SameTable(x.workers, y.workers);
    SameTable(x.cap, y.cap);
    SameTable(x.ready, y.ready);
    assert x.room.Keys == y.room.Keys;
    assert forall k :: k in y.room ==> x.room[k] == y.room[k];
  }

  lemma Covered(hosts: seq<Host>, others: seq<Host>, x: Inputs, y: Inputs)
    requires TablesOf(hosts, x) && TablesOf(others, y) && forall h :: h in hosts <==> h in others
    ensures forall k :: k in x.workers ==>
              && k in y.workers && k in y.cap && k in y.room && k in y.ready
              && x.workers[k] == y.workers[k] && x.cap[k] == y.cap[k] && x.room[k] == y.room[k] && x.ready[k] == y.ready[k]
  {
    forall k | k in x.workers
      ensures && k in y.workers && k in y.cap && k in y.room && k in y.ready
              && x.workers[k] == y.workers[k] && x.cap[k] == y.cap[k] && x.room[k] == y.room[k] && x.ready[k] == y.ready[k]
    {
      var i :| 0 <= i < |hosts| && hosts[i].id == k;
      assert hosts[i] in others;
      assert Holds(x, hosts[i]) && Holds(y, hosts[i]);
    }
  }

  // ---- the split ----

  predicate Growing(total: U32, x: Inputs) {
    Min(Sum(x.workers, x.workers.Keys), U32_MAX) <= total
  }

  /** What a growing total adds to the present workers. */
  function Surplus(total: U32, x: Inputs): nat { Max(0, total - Sum(x.workers, x.workers.Keys)) }

  /** What each host may still take on. */
  function Spare(x: Inputs): (t: Table)
    requires x.workers.Keys == x.cap.Keys
    ensures t.Keys == x.workers.Keys
  {
    map h | h in x.workers :: SatSubInt(x.cap[h], x.workers[h])
  }

  function SatSubInt(a: int, b: int): int { Max(0, a - b) }

  function WithSpare(x: Inputs): set<Name>
    requires x.workers.Keys == x.cap.Keys
  {
    set h | h in x.workers && Spare(x)[h] > 0
  }

  function WithDemand(x: Inputs): set<Name> {
    set h | h in x.ready && x.ready[h] > 0
  }

  /** The split of a total: while it does not shrink every host keeps its workers and
      only the surplus is distributed; otherwise the hosts with demand share it whole. */
  ghost predicate IsSplit(total: U32, x: Inputs, shares: Table)
    requires x.Valid()
  {
    exists d :: DistributedAs(total, x, d, shares)
  }

  ghost predicate DistributedAs(total: U32, x: Inputs, d: Table, shares: Table)
    requires x.Valid()
  {
    && shares.Keys == d.Keys == x.Ids()
    && if Growing(total, x) then
         && IsDistribution(Surplus(total, x), WithSpare(x), x.room, Spare(x), x.Ids(), d)
         && forall h :: h in shares ==> shares[h] == Min(x.workers[h] + d[h], U32_MAX)
       else
         && IsDistribution(total, WithDemand(x), x.room, x.cap, x.Ids(), d)
         && forall h :: h in shares ==> shares[h] == d[h]
  }

  method SplitAccountTotal(total: U32, hosts: seq<Host>) returns (shares: Table)
    requires UniqueIds(hosts)
    ensures IsSplit(total, TableOf(hosts), shares)
  {
    var tables := Tables(hosts);
    shares := SplitTables(total, tables);
  }

  method SplitTables(total: U32, x: Inputs) returns (shares: Table)
    requires x.Valid()
    ensures IsSplit(total, x, shares)
  {
    hide IsDistribution;
    var ids := x.workers.Keys;
    SumNonNegative(x.workers, ids);
    var current := Placement.SaturatingTotal(x.workers, ids);
    if total >= current {
      assert total - current == Surplus(total, x);
      var d := Distribute(total - current, Placement.Ascending(WithSpare(x)), x.room, Spare(x), ids);
      KeysOfDistribution(total - current, WithSpare(x), x.room, Spare(x), ids, d);
      shares := map h | h in ids :: Min(x.workers[h] + d[h], U32_MAX);
      assert DistributedAs(total, x, d, shares);
    } else {
      var d := Distribute(total, Placement.Ascending(WithDemand(x)), x.room, x.cap, ids);
      KeysOfDistribution(total, WithDemand(x), x.room, x.cap, ids, d);
      shares := d;
      assert DistributedAs(total, x, d, shares);
    }
  }

  lemma KeysOfDistribution(target: nat, eligible: set<Name>, headroom: Headroom, ceiling: Table, hosts: set<Name>, d: Table)
    requires eligible <= hosts && eligible <= headroom.Keys && eligible <= ceiling.Keys
    requires IsDistribution(target, eligible, headroom, ceiling, hosts, d)
    ensures d.Keys == hosts
  {
  }

  // ---- what a split keeps ----

  /** d[h] is a count, no larger than what is still free; the sum is exact. */
  lemma DistributionFacts(target: nat, eligible: set<Name>, headroom: Headroom, ceiling: Table, hosts: set<Name>, d: Table)
    requires eligible <= hosts && hosts <= headroom.Keys && hosts <= ceiling.Keys
    requires forall k :: k in hosts ==> 0.0 <= headroom[k] && 0 <= ceiling[k]
    requires IsDistribution(target, eligible, headroom, ceiling, hosts, d)
    ensures d.Keys == hosts && forall k :: k in hosts ==> 0 <= d[k] <= ceiling[k]
    ensures forall k :: k in hosts && k !in eligible ==> d[k] == 0
    ensures Sum(d, hosts) == Min(target, Sum(ceiling, eligible))
  {
    BasesFit(target, eligible, headroom, ceiling);
    SumSplit(d, hosts, eligible);
    SumConstant(d, hosts - eligible, 0);
  }

  lemma SumOfSpare(x: Inputs)
    requires x.Valid()
    ensures Sum(Spare(x), WithSpare(x)) == Sum(Spare(x), x.Ids())
  {
    SumSplit(Spare(x), x.Ids(), WithSpare(x));
    SumConstant(Spare(x), x.Ids() - WithSpare(x), 0);
  }

  lemma GrowingShares(total: U32, x: Inputs, shares: Table) returns (d: Table)
    requires x.Valid() && IsSplit(total, x, shares) && Growing(total, x)
    ensures shares.Keys == d.Keys == x.Ids()
    ensures forall h :: h in shares ==> 0 <= d[h] <= Spare(x)[h] && shares[h] == x.workers[h] + d[h]
    ensures Sum(d, x.Ids()) == Min(Surplus(total, x), Sum(Spare(x), x.Ids()))
  {
    d :| DistributedAs(total, x, d, shares);
    DistributionFacts(Surplus(total, x), WithSpare(x), x.room, Spare(x), x.Ids(), d);
    hide IsDistribution, Sum;
    SumOfSpare(x);
  }

  /** While the total does not shrink no host loses a worker, a host without demand
      keeps exactly its own, and the surplus is placed as far as there is room for it. */
  lemma GrowingSplit(total: U32, x: Inputs, shares: Table)
    requires x.Valid() && IsSplit(total, x, shares) && Growing(total, x)
    ensures shares.Keys == x.Ids()
    ensures forall h :: h in shares ==> x.workers[h] <= shares[h] <= Max(x.workers[h], x.cap[h])
    ensures Sum(x.workers, x.Ids()) <= U32_MAX ==>
              var spare := map h | h in x.workers :: if x.workers[h] < x.cap[h] then x.cap[h] - x.workers[h] else 0;
              Sum(shares, x.Ids()) == Min(total, Sum(x.workers, x.Ids()) + Sum(spare, x.Ids()))
    ensures U32_MAX < Sum(x.workers, x.Ids()) ==> Sum(shares, x.Ids()) == Sum(x.workers, x.Ids())
  {
    hide IsSplit;
    var d := GrowingShares(total, x, shares);
    SumOfTwo(x.workers, d, shares, x.Ids());
    SumNonNegative(Spare(x), x.Ids());
    var spare := map h | h in x.workers :: if x.workers[h] < x.cap[h] then x.cap[h] - x.workers[h] else 0;
    SumAgree(Spare(x), spare, x.Ids());
  }

  lemma {:induction false} SumOfTwo(a: Table, b: Table, c: Table, s: set<Name>)
    requires s <= a.Keys && s <= b.Keys && s <= c.Keys && forall k :: k in s ==> c[k] == a[k] + b[k]
    ensures Sum(c, s) == Sum(a, s) + Sum(b, s)
  {
    if s != {} {
      SumOfTwo(a, b, c, s - {Least(s)});
    }
  }

  /** A host without demand has no room for more. */
  lemma NoDemandNoSpare(hosts: seq<Host>, h: Host)
    requires UniqueIds(hosts) && h in hosts && h.readyDemand == 0
    ensures var x := TableOf(hosts);
            && h.id in x.workers && h.id !in WithSpare(x) && h.id !in WithDemand(x)
            && x.workers[h.id] == h.workers && x.cap[h.id] <= h.workers
  {
    TableOfHosts(hosts);
    assert Holds(TableOf(hosts), h);
  }

  /** While it shrinks, a host without demand gets nothing and the others split the
      total as far as their caps go. */
  lemma ShrinkingSplit(total: U32, x: Inputs, shares: Table)
    requires x.Valid() && IsSplit(total, x, shares) && !Growing(total, x)
    ensures shares.Keys == x.Ids()
    ensures forall h :: h in shares ==> 0 <= shares[h] <= x.cap[h]
    ensures forall h :: h in shares && x.ready[h] == 0 ==> shares[h] == 0
    ensures Sum(shares, x.Ids()) == Min(total, Sum(x.cap, set h | h in x.ready && x.ready[h] != 0))
  {
    assert WithDemand(x) == set h | h in x.ready && x.ready[h] != 0;
    var d :| DistributedAs(total, x, d, shares);
    DistributionFacts(total, WithDemand(x), x.room, x.cap, x.Ids(), d);
    hide IsDistribution;
    SumAgree(shares, d, x.Ids());
  }

  /** The shares never exceed the total, except when it is the largest 32-bit number
      and the hosts already run more than that. */
  lemma SharesWithinTotalExactly(total: U32, x: Inputs, shares: Table)
    requires x.Valid() && IsSplit(total, x, shares)
    ensures shares.Keys == x.Ids()
    ensures Sum(shares, x.Ids()) <= total <==> total < U32_MAX || Sum(x.workers, x.Ids()) <= U32_MAX
  {
    hide IsSplit;
    if Growing(total, x) {
      GrowingSplit(total, x, shares);
    } else {
      ShrinkingSplit(total, x, shares);
    }
  }

  /** The largest 32-bit total, and one worker more than that running. */
  predicate FullHosts(hosts: seq<Host>) { hosts == [Host(1, U32_MAX, 0, 0), Host(2, 1, 0, 0)] }

  lemma SumOfPair(w: Table)
    requires {1, 2} <= w.Keys
    ensures Sum(w, {1, 2}) == w[1] + w[2]
  {
    SumPick(w, {1, 2}, 1);
    SumPick(w, {2}, 2);
    assert {1, 2} - {1} == {2} && {2} - {2} == {};
  }

  lemma TwoHosts(hosts: seq<Host>, x: Inputs)
    requires FullHosts(hosts) && TablesOf(hosts, x)
    ensures x.Ids() == {1, 2} && Sum(x.workers, x.Ids()) == U32_MAX + 1 && Growing(U32_MAX, x)
    ensures x.workers[1] == U32_MAX && x.workers[2] == 1 && WithSpare(x) == {}
  {
    hide Sum;
    assert hosts[0] in hosts && hosts[1] in hosts;
    assert Holds(x, hosts[0]) && Holds(x, hosts[1]);
    assert forall k :: k in x.workers <==> k in {1, 2};
    SumOfPair(x.workers);
  }

  lemma FullTables(hosts: seq<Host>)
    requires FullHosts(hosts)
    ensures TablesOf(hosts, TableOf(hosts)) && TableOf(hosts).Valid()
  {
    hide TableOf, TablesOf;
    TableOfHosts(hosts);
  }

  lemma NothingToDistribute(x: Inputs, d: Table)
    requires x.Valid() && WithSpare(x) == {}
    requires d.Keys == x.Ids() && forall h :: h in d ==> d[h] == 0
    ensures IsDistribution(0, WithSpare(x), x.room, Spare(x), x.Ids(), d)
  {
    assert Sum(d, {}) == 0 && Sum(Spare(x), {}) == 0;
  }

  lemma KeepsAll(x: Inputs, shares: Table)
    requires x.Valid() && x.Ids() == {1, 2} && x.workers[1] == U32_MAX && x.workers[2] == 1
    requires Growing(U32_MAX, x) && WithSpare(x) == {} && Sum(x.workers, x.Ids()) == U32_MAX + 1
    requires shares == map[1 := U32_MAX, 2 := 1]
    ensures IsSplit(U32_MAX, x, shares)
  {
    var d: Table := map[1 := 0, 2 := 0];
    NothingToDistribute(x, d);
    hide IsDistribution, Growing, Sum, WithSpare, Spare;
    assert Surplus(U32_MAX, x) == 0;
    assert DistributedAs(U32_MAX, x, d, shares);
  }

  /** The least case: that total splits, and every split of it keeps one worker more. */
  lemma SharesPassTotal(hosts: seq<Host>)
    requires FullHosts(hosts)
    ensures IsSplit(U32_MAX, TableOf(hosts), map[1 := U32_MAX, 2 := 1])
    ensures forall shares :: IsSplit(U32_MAX, TableOf(hosts), shares) ==>
              shares.Keys == {1, 2} && Sum(shares, {1, 2}) == U32_MAX + 1
  {
    hide FullHosts, TableOf, TablesOf, IsSplit, Growing, Sum, Spare;
    FullTables(hosts);
    TwoHosts(hosts, TableOf(hosts));
    KeepsAll(TableOf(hosts), map[1 := U32_MAX, 2 := 1]);
    forall shares | IsSplit(U32_MAX, TableOf(hosts), shares)
      ensures shares.Keys == {1, 2} && Sum(shares, {1, 2}) == U32_MAX + 1
    {
      GrowingSplit(U32_MAX, TableOf(hosts), shares);
    }
  }

  lemma SplitIsUnique(total: U32, x: Inputs, shares: Table, others: Table)
    requires x.Valid() && IsSplit(total, x, shares) && IsSplit(total, x, others)
    ensures shares == others
  {
    hide IsDistribution;
    var d :| DistributedAs(total, x, d, shares);
    var e :| DistributedAs(total, x, e, others);
    if Growing(total, x) {
      var surplus := Surplus(total, x);
      DistributionIsUnique(surplus, WithSpare(x), x.room, Spare(x), x.Ids(), d, e);
    } else {
      DistributionIsUnique(total, WithDemand(x), x.room, x.cap, x.Ids(), d, e);
    }
    SameTable(shares, others);
  }
}
