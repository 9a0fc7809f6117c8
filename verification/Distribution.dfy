/** distribute of src/placement.rs: a total split over the eligible hosts by
    headroom, rounded down and capped, the shortfall handed out one worker at a
    time to the host with the most unused headroom. */
module Distribution {
  import opened Common

  type Headroom = map<Name, real>

  // ---- shares ----

  function RealSum(h: Headroom, s: set<Name>): real
    requires s <= h.Keys
  {
    if s == {} then 0.0 else var k := Least(s); h[k] + RealSum(h, s - {k})
  }

  /** A share of zero total headroom is not a number, and counts as zero. */
  function FloorShare(target: nat, headroom: real, total: real): int {
    if total == 0.0 then 0 else (target as real * headroom / total).Floor
  }

  function Bases(target: nat, eligible: set<Name>, headroom: Headroom, ceiling: Table): (b: Table)
    requires eligible <= headroom.Keys && eligible <= ceiling.Keys
    ensures b.Keys == eligible
  {
    map k | k in eligible :: Min(FloorShare(target, headroom[k], RealSum(headroom, eligible)), ceiling[k])
  }

  lemma FloorShareBound(target: nat, h: real, total: real)
    requires 0.0 <= h && 0.0 <= total
    ensures 0 <= FloorShare(target, h, total)
    ensures WithinShare(FloorShare(target, h, total), total, target, h)
  {
    ProductAtLeastZero(target as real, h);
    if total > 0.0 {
      var share := target as real * h / total;
      assert share * total == target as real * h;
      ProductAtLeastZero(total, share - share.Floor as real);
      assert total * (share - share.Floor as real) == total * share - total * share.Floor as real;
      assert total * -share == -(target as real * h);
      SignOfRealProduct(total, -share);
    }
  }

  /** One worker more than the rounded-down share is more than the share. */
  lemma FloorShareIsLargest(target: nat, h: real, total: real)
    requires 0.0 <= h && 0.0 < total
    ensures !WithinShare(FloorShare(target, h, total) + 1, total, target, h)
  {
    var part := target as real * h;
    MoreThanQuotient(part, total, (part / total).Floor + 1);
  }

  lemma MoreThanQuotient(part: real, total: real, n: int)
    requires 0.0 < total && part / total < n as real
    ensures part < n as real * total
  {
    var share, above := part / total, n as real;
    assert share * total == part;
    SignOfRealProduct(total, above - share);
    assert total * (above - share) == above * total - share * total;
  }

  lemma ProductAtLeastZero(a: real, b: real)
    requires 0.0 <= a && 0.0 <= b
    ensures 0.0 <= a * b
  {
  }

  lemma DistributeReal(a: real, b: real, c: real)
    ensures a * (b + c) == a * b + a * c
  {
  }

  lemma {:induction false} RealSumNonNegative(h: Headroom, s: set<Name>)
    requires s <= h.Keys && forall k :: k in s ==> 0.0 <= h[k]
    ensures 0.0 <= RealSum(h, s)
    ensures RealSum(h, s) == 0.0 ==> forall k :: k in s ==> h[k] == 0.0
  {
    if s != {} {
      RealSumNonNegative(h, s - {Least(s)});
    }
  }

  /** b workers are at most their proportional part of the target. */
  predicate WithinShare(b: int, total: real, target: nat, h: real) {
    b as real * total <= target as real * h
  }

  lemma AddShares(total: real, target: nat, b: int, h: real, bs: int, hs: real)
    requires WithinShare(b, total, target, h) && WithinShare(bs, total, target, hs)
    ensures WithinShare(b + bs, total, target, h + hs)
  {
    DistributeReal(total, b as real, bs as real);
    DistributeReal(target as real, h, hs);
  }

  lemma {:induction false} SharesWithin(target: nat, h: Headroom, total: real, s: set<Name>, b: Table)
    requires s <= h.Keys && s <= b.Keys
    requires forall k :: k in s ==> WithinShare(b[k], total, target, h[k])
    ensures WithinShare(Sum(b, s), total, target, RealSum(h, s))
  {
    if s == {} {
      assert WithinShare(0, total, target, 0.0);
    } else {
      hide WithinShare;
      var k := Least(s);
      SharesWithin(target, h, total, s - {k}, b);
      AddShares(total, target, b[k], h[k], Sum(b, s - {k}), RealSum(h, s - {k}));
    }
  }

  lemma SignOfRealProduct(a: real, b: real)
    requires 0.0 < a
    ensures 0.0 < a * b <==> 0.0 < b
  {
  }

  lemma CancelTotal(x: int, target: nat, total: real, sum: real)
    requires WithinShare(x, total, target, sum) && 0.0 < total == sum
    ensures x <= target
  {
    DistributeReal(total, x as real, -(target as real));
    SignOfRealProduct(total, x as real - target as real);
  }

  lemma FloorsWithin(target: nat, eligible: set<Name>, headroom: Headroom, total: real, shares: Table)
    requires eligible <= headroom.Keys && eligible <= shares.Keys && total == RealSum(headroom, eligible)
    requires forall k :: k in eligible ==> 0.0 <= headroom[k] && shares[k] == FloorShare(target, headroom[k], total)
    ensures forall k :: k in eligible ==> 0 <= shares[k]
    ensures Sum(shares, eligible) <= target
  {
    RealSumNonNegative(headroom, eligible);
    forall k | k in eligible
      ensures 0 <= shares[k] && WithinShare(shares[k], total, target, headroom[k])
    {
      FloorShareBound(target, headroom[k], total);
    }
    if total > 0.0 {
      SharesWithin(target, headroom, total, eligible, shares);
      CancelTotal(Sum(shares, eligible), target, total, RealSum(headroom, eligible));
    } else {
      SumConstant(shares, eligible, 0);
    }
  }

  /** Rounding down never hands out more than the total. */
  lemma BasesFit(target: nat, eligible: set<Name>, headroom: Headroom, ceiling: Table)
    requires eligible <= headroom.Keys && eligible <= ceiling.Keys
    requires forall k :: k in eligible ==> 0.0 <= headroom[k] && 0 <= ceiling[k]
    ensures var b := Bases(target, eligible, headroom, ceiling);
            && 0 <= Sum(b, eligible) <= target
            && forall k :: k in eligible ==> 0 <= b[k] <= ceiling[k]
  {
    var b, total := Bases(target, eligible, headroom, ceiling), RealSum(headroom, eligible);
    var shares := map k | k in eligible :: FloorShare(target, headroom[k], total);
    hide FloorShare;
    FloorsWithin(target, eligible, headroom, total, shares);
    SumLe(b, shares, eligible);
    SumNonNegative(b, eligible);
  }

  // ---- the order in which hosts get the shortfall ----

  /** Unused headroom. A host without a ceiling is never scored. */
  function Score(headroom: real, count: int, ceiling: int): real {
    if ceiling <= 0 then headroom else headroom - count as real / ceiling as real
  }

  /** j holding cj workers is served before i holding ci; ties go to the smaller name. */
  predicate Ahead(headroom: Headroom, ceiling: Table, j: Name, cj: int, i: Name, ci: int)
    requires j in headroom && i in headroom && j in ceiling && i in ceiling
  {
    var sj, si := Score(headroom[j], cj, ceiling[j]), Score(headroom[i], ci, ceiling[i]);
    sj > si || (sj == si && j < i)
  }

  lemma ScoreFalls(headroom: real, count: int, more: int, ceiling: int)
    requires count <= more
    ensures Score(headroom, more, ceiling) <= Score(headroom, count, ceiling)
  {
    if ceiling > 0 {
      var c := ceiling as real;
      assert more as real / c - count as real / c == (more - count) as real / c;
      assert (more - count) as real / c >= 0.0;
    }
  }

  lemma AheadOfMore(headroom: Headroom, ceiling: Table, j: Name, cj: int, i: Name, ci: int, more: int)
    requires j in headroom && i in headroom && j in ceiling && i in ceiling
    requires Ahead(headroom, ceiling, j, cj, i, ci) && ci <= more
    ensures Ahead(headroom, ceiling, j, cj, i, more)
  {
    ScoreFalls(headroom[i], ci, more, ceiling[i]);
  }

  // ---- what a distribution is ----

  /** Every worker beyond a base went to a host that was ahead of all that had room. */
  ghost predicate Greedy(eligible: set<Name>, headroom: Headroom, ceiling: Table, base: Table, r: Table)
    requires eligible <= headroom.Keys && eligible <= ceiling.Keys && eligible <= base.Keys && eligible <= r.Keys
  {
    forall j, i :: j in eligible && i in eligible && j != i && base[j] < r[j] && r[i] < ceiling[i]
      ==> Ahead(headroom, ceiling, j, r[j] - 1, i, r[i])
  }

  ghost predicate IsDistribution(target: nat, eligible: set<Name>, headroom: Headroom, ceiling: Table,
                                 hosts: set<Name>, r: Table)
    requires eligible <= hosts && eligible <= headroom.Keys && eligible <= ceiling.Keys
  {
    && r.Keys == hosts
    && (forall k :: k in hosts && k !in eligible ==> r[k] == 0)
    && (forall k :: k in eligible ==> Bases(target, eligible, headroom, ceiling)[k] <= r[k] <= ceiling[k])
    && Sum(r, eligible) == Min(target, Sum(ceiling, eligible))
    && Greedy(eligible, headroom, ceiling, Bases(target, eligible, headroom, ceiling), r)
  }

  /** Of two hosts that could both hold another worker, whichever got one beyond its base
      had more unused headroom then than the other is left with, or as much and the
      smaller name. */
  lemma ShortfallGoesByHeadroom(target: nat, eligible: set<Name>, headroom: Headroom, ceiling: Table, hosts: set<Name>,
                                r: Table, j: Name, i: Name)
    requires eligible <= hosts && eligible <= headroom.Keys && eligible <= ceiling.Keys
    requires forall k :: k in eligible ==> 0.0 <= headroom[k] && 0 <= ceiling[k]
    requires IsDistribution(target, eligible, headroom, ceiling, hosts, r)
    requires j in eligible && i in eligible && j != i && r[i] < ceiling[i]
    requires Bases(target, eligible, headroom, ceiling)[j] < r[j]
    ensures 0 < ceiling[j] && 0 < ceiling[i]
    ensures var left, before := headroom[i] - r[i] as real / ceiling[i] as real,
                                headroom[j] - (r[j] - 1) as real / ceiling[j] as real;
            left < before || (left == before && j < i)
  {
    BasesFit(target, eligible, headroom, ceiling);
    hide Bases, Sum;
    assert Ahead(headroom, ceiling, j, r[j] - 1, i, r[i]);
  }

  lemma ShareReached(target: nat, eligible: set<Name>, headroom: Headroom, ceiling: Table, hosts: set<Name>, r: Table, k: Name)
    requires eligible <= hosts && eligible <= headroom.Keys && eligible <= ceiling.Keys
    requires IsDistribution(target, eligible, headroom, ceiling, hosts, r)
    requires k in eligible && r[k] < ceiling[k]
    ensures k in r && FloorShare(target, headroom[k], RealSum(headroom, eligible)) <= r[k]
  {
    hide FloorShare, RealSum, Greedy, Sum;
    assert Bases(target, eligible, headroom, ceiling)[k] <= r[k];
  }

  /** Every eligible host below its ceiling gets at least its proportional part of the
      target rounded down: one worker more would be more than that part. */
  lemma AtLeastTheShare(target: nat, eligible: set<Name>, headroom: Headroom, ceiling: Table, hosts: set<Name>,
                        r: Table, k: Name)
    requires eligible <= hosts && eligible <= headroom.Keys && eligible <= ceiling.Keys
    requires forall i :: i in eligible ==> 0.0 <= headroom[i] && 0 <= ceiling[i]
    requires IsDistribution(target, eligible, headroom, ceiling, hosts, r)
    requires k in eligible && k in r && r[k] < ceiling[k] && 0.0 < RealSum(headroom, eligible)
    ensures target as real * headroom[k] < (r[k] + 1) as real * RealSum(headroom, eligible)
  {
    hide FloorShare, RealSum, IsDistribution;
    var total := RealSum(headroom, eligible);
    ShareReached(target, eligible, headroom, ceiling, hosts, r, k);
    FloorShareIsLargest(target, headroom[k], total);
    MoreWorkers(FloorShare(target, headroom[k], total) + 1, r[k] + 1, total, target, headroom[k]);
  }

  lemma MoreWorkers(few: int, many: int, total: real, target: nat, h: real)
    requires few <= many && 0.0 <= total && !WithinShare(few, total, target, h)
    ensures !WithinShare(many, total, target, h)
  {
    ProductAtLeastZero(total, (many - few) as real);
    DistributeReal(total, few as real, (many - few) as real);
  }

  /** Two tables with the same sum that differ differ both ways. */
  lemma {:induction false} Crossing(r: Table, t: Table, s: set<Name>, j: Name)
    requires s <= r.Keys && s <= t.Keys && Sum(r, s) == Sum(t, s) && j in s && t[j] < r[j]
    ensures exists i :: i in s && r[i] < t[i]
  {
    if forall i :: i in s ==> t[i] <= r[i] {
      SumLe(t, r, s - {j});
      SumPick(r, s, j);
      SumPick(t, s, j);
    }
  }

  /** Greedy hand-outs of the same sum cannot cross. */
  lemma NoCrossing(eligible: set<Name>, headroom: Headroom, ceiling: Table, base: Table, r: Table, t: Table, j: Name, i: Name)
    requires eligible <= headroom.Keys && eligible <= ceiling.Keys && eligible <= base.Keys
    requires eligible <= r.Keys && eligible <= t.Keys
    requires forall k :: k in eligible ==> base[k] <= r[k] <= ceiling[k] && base[k] <= t[k] <= ceiling[k]
    requires Greedy(eligible, headroom, ceiling, base, r) && Greedy(eligible, headroom, ceiling, base, t)
    requires j in eligible && i in eligible && t[j] < r[j]
    ensures t[i] <= r[i]
  {
    hide Score;
    if r[i] < t[i] {
      AheadOfMore(headroom, ceiling, j, r[j] - 1, i, r[i], t[i] - 1);
      AheadOfMore(headroom, ceiling, i, t[i] - 1, j, t[j], r[j] - 1);
    }
  }

  lemma AtMost(target: nat, eligible: set<Name>, headroom: Headroom, ceiling: Table, hosts: set<Name>,
               r: Table, t: Table, k: Name)
    requires eligible <= hosts && eligible <= headroom.Keys && eligible <= ceiling.Keys
    requires IsDistribution(target, eligible, headroom, ceiling, hosts, r)
    requires IsDistribution(target, eligible, headroom, ceiling, hosts, t)
    requires k in eligible
    ensures r[k] <= t[k]
  {
    if t[k] < r[k] {
      Crossing(r, t, eligible, k);
      var i :| i in eligible && r[i] < t[i];
      NoCrossing(eligible, headroom, ceiling, Bases(target, eligible, headroom, ceiling), r, t, k, i);
    }
  }

  /** The split is determined: no order of hosts, peers or loop iterations can change it. */
  lemma DistributionIsUnique(target: nat, eligible: set<Name>, headroom: Headroom, ceiling: Table, hosts: set<Name>,
                             r: Table, t: Table)
    requires eligible <= hosts && eligible <= headroom.Keys && eligible <= ceiling.Keys
    requires IsDistribution(target, eligible, headroom, ceiling, hosts, r)
    requires IsDistribution(target, eligible, headroom, ceiling, hosts, t)
    ensures r == t
  {
    forall k | k in hosts ensures r[k] == t[k] {
      if k in eligible {
        AtMost(target, eligible, headroom, ceiling, hosts, r, t, k);
        AtMost(target, eligible, headroom, ceiling, hosts, t, r, k);
      }
    }
    SameTable(r, t);
  }

  // ---- the loop ----

  /** Serving the host that is ahead of all others with room keeps the hand-out greedy. */
  lemma ServeKeepsGreedy(eligible: set<Name>, headroom: Headroom, ceiling: Table, base: Table, r: Table, w: Name)
    requires eligible <= headroom.Keys && eligible <= ceiling.Keys && eligible <= base.Keys && eligible <= r.Keys
    requires Greedy(eligible, headroom, ceiling, base, r) && w in eligible && r[w] < ceiling[w]
    requires forall i :: i in eligible && i != w && r[i] < ceiling[i] ==> Ahead(headroom, ceiling, w, r[w], i, r[i])
    ensures Greedy(eligible, headroom, ceiling, base, r[w := r[w] + 1])
  {
    hide Score, Ahead;
    var t := r[w := r[w] + 1];
    forall j, i | j in eligible && i in eligible && j != i && base[j] < t[j] && t[i] < ceiling[i]
      ensures Ahead(headroom, ceiling, j, t[j] - 1, i, t[i])
    {
      if i == w {
        AheadOfMore(headroom, ceiling, j, r[j] - 1, w, r[w], t[w]);
      }
    }
  }

  predicate StrictlyAscending(s: seq<Name>) {
    forall i, j :: 0 <= i < j < |s| ==> s[i] < s[j]
  }

  /** The first host in ascending order with the highest score among those with room. */
  method Best(eligible: seq<Name>, headroom: Headroom, ceiling: Table, clamped: Table) returns (best: Option<Name>)
    requires StrictlyAscending(eligible)
    requires Elements(eligible) <= headroom.Keys && Elements(eligible) <= ceiling.Keys && Elements(eligible) <= clamped.Keys
    ensures best.None? ==> forall i :: i in Elements(eligible) ==> ceiling[i] <= clamped[i]
    ensures best.Some? ==>
              var w := best.value;
              && w in Elements(eligible) && clamped[w] < ceiling[w]
              && forall i :: i in Elements(eligible) && i != w && clamped[i] < ceiling[i]
                   ==> Ahead(headroom, ceiling, w, clamped[w], i, clamped[i])
  {
    hide Score;
    best := None;
    var bestScore := 0.0;
    var n := 0;
    while n < |eligible|
      invariant n <= |eligible|
      invariant best.None? ==> forall i :: i in Elements(eligible[..n]) ==> ceiling[i] <= clamped[i]
      invariant best.Some? ==>
                  var w := best.value;
                  && w in Elements(eligible[..n]) && clamped[w] < ceiling[w]
                  && bestScore == Score(headroom[w], clamped[w], ceiling[w])
                  && forall i :: i in Elements(eligible[..n]) && i != w && clamped[i] < ceiling[i]
                       ==> Ahead(headroom, ceiling, w, clamped[w], i, clamped[i])
    {
      var id := eligible[n];
      assert id in Elements(eligible);
      assert Elements(eligible[..n + 1]) == Elements(eligible[..n]) + {id};
      assert forall i :: i in Elements(eligible[..n]) ==> i < id;
      n := n + 1;
      if clamped[id] >= ceiling[id] {
        continue;
      }
      var score := Score(headroom[id], clamped[id], ceiling[id]);
      if best.None? || score > bestScore {
        best, bestScore := Some(id), score;
      }
    }
    assert eligible[..n] == eligible;
  }

  /** Between hand-outs: nobody below base or past a ceiling, and greedy so far. */
  ghost predicate Serving(target: nat, eligible: set<Name>, headroom: Headroom, ceiling: Table, hosts: set<Name>,
                          base: Table, sum: int, clamped: Table)
    requires eligible <= hosts <= headroom.Keys && hosts <= ceiling.Keys && base.Keys == eligible
  {
    && clamped.Keys == hosts && sum == Sum(clamped, eligible) <= target
    && (forall k :: k in hosts && k !in eligible ==> clamped[k] == 0)
    && (forall k :: k in eligible ==> base[k] <= clamped[k] <= ceiling[k])
    && Greedy(eligible, headroom, ceiling, base, clamped)
  }

  lemma ServeOne(target: nat, eligible: set<Name>, headroom: Headroom, ceiling: Table, hosts: set<Name>,
                 base: Table, sum: int, clamped: Table, w: Name)
    requires eligible <= hosts <= headroom.Keys && hosts <= ceiling.Keys && base.Keys == eligible
    requires Serving(target, eligible, headroom, ceiling, hosts, base, sum, clamped) && sum < target
    requires w in eligible && clamped[w] < ceiling[w]
    requires forall i :: i in eligible && i != w && clamped[i] < ceiling[i]
               ==> Ahead(headroom, ceiling, w, clamped[w], i, clamped[i])
    ensures Serving(target, eligible, headroom, ceiling, hosts, base, sum + 1, clamped[w := clamped[w] + 1])
  {
    ServeKeepsGreedy(eligible, headroom, ceiling, base, clamped, w);
    hide Greedy, Ahead;
    SumUpdate(clamped, eligible, w, clamped[w] + 1);
  }

  lemma Served(target: nat, eligible: set<Name>, headroom: Headroom, ceiling: Table, hosts: set<Name>,
               base: Table, sum: int, clamped: Table)
    requires eligible <= hosts <= headroom.Keys && hosts <= ceiling.Keys
    requires base == Bases(target, eligible, headroom, ceiling)
    requires Serving(target, eligible, headroom, ceiling, hosts, base, sum, clamped)
    requires sum == target || forall i :: i in eligible ==> ceiling[i] <= clamped[i]
    ensures IsDistribution(target, eligible, headroom, ceiling, hosts, clamped)
  {
    hide Greedy, Bases;
    SumLe(clamped, ceiling, eligible);
    if sum != target {
      SumAgree(clamped, ceiling, eligible);
    }
  }

  lemma ServeFromBases(target: nat, eligible: set<Name>, headroom: Headroom, ceiling: Table, hosts: set<Name>,
                       base: Table, clamped: Table)
    requires eligible <= hosts <= headroom.Keys && hosts <= ceiling.Keys
    requires forall k :: k in hosts ==> 0.0 <= headroom[k] && 0 <= ceiling[k]
    requires base == Bases(target, eligible, headroom, ceiling) && clamped.Keys == hosts
    requires forall k :: k in hosts ==> clamped[k] == if k in base then base[k] else 0
    ensures Serving(target, eligible, headroom, ceiling, hosts, base, Sum(clamped, hosts), clamped)
    ensures Sum(clamped, hosts) <= target
  {
    BasesFit(target, eligible, headroom, ceiling);
    PaddedSum(base, clamped, hosts);
    hide Bases, Ahead, Sum;
  }

  lemma PaddedSum(base: Table, clamped: Table, hosts: set<Name>)
    requires base.Keys <= hosts == clamped.Keys
    requires forall k :: k in hosts ==> clamped[k] == if k in base then base[k] else 0
    ensures Sum(clamped, hosts) == Sum(clamped, base.Keys) == Sum(base, base.Keys)
  {
    SumAgree(clamped, base, base.Keys);
    SumSplit(clamped, hosts, base.Keys);
    SumConstant(clamped, hosts - base.Keys, 0);
  }

  /** Splits `target` over the hosts: exactly min(target, the eligible ceilings)
      workers, none past a ceiling, none on an ineligible host. */
  method Distribute(target: nat, eligible: seq<Name>, headroom: Headroom, ceiling: Table, hosts: set<Name>)
    returns (clamped: Table)
    requires StrictlyAscending(eligible) && Elements(eligible) <= hosts <= ceiling.Keys && hosts <= headroom.Keys
    requires forall k :: k in hosts ==> 0.0 <= headroom[k] && 0 <= ceiling[k]
    ensures IsDistribution(target, Elements(eligible), headroom, ceiling, hosts, clamped)
  {
    hide Serving, IsDistribution, FloorShare, Ahead, Score;
    ghost var among := Elements(eligible);
    var base := Bases(target, Elements(eligible), headroom, ceiling);
    clamped := map k | k in hosts :: if k in base then base[k] else 0;
    var sum := Sum(clamped, hosts);
    ServeFromBases(target, among, headroom, ceiling, hosts, base, clamped);
    while sum < target
      invariant Serving(target, among, headroom, ceiling, hosts, base, sum, clamped) && clamped.Keys == hosts
      invariant sum <= target
    {
      var best := Best(eligible, headroom, ceiling, clamped);
      if best.None? {
        Served(target, among, headroom, ceiling, hosts, base, sum, clamped);
        return;
      }
      var winner := best.value;
      ServeOne(target, among, headroom, ceiling, hosts, base, sum, clamped, winner);
      clamped := clamped[winner := clamped[winner] + 1];
      sum := sum + 1;
    }
    Served(target, among, headroom, ceiling, hosts, base, sum, clamped);
  }
}
