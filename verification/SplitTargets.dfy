/** split_targets of scripts/subgov_host_capacity.py: a host's slots shared out
    among pools in proportion to their ready demand, each pool capped at its
    target, leftovers by largest remainder. */
module SplitTargets {
  import opened Common

  function Positives(targets: Table): set<Name> {
    set k | k in targets && targets[k] > 0
  }

  function Demand(demand: Table, k: Name): (d: int)
    ensures 0 <= d
    ensures 0 < d <==> k in demand && 0 < demand[k]
    ensures 0 < d ==> d == demand[k]
  {
    if k in demand then Max(0, demand[k]) else 0
  }

  function Demands(demand: Table, active: set<Name>): (w: Table)
    ensures w.Keys == active && forall k :: k in active ==> w[k] == Demand(demand, k)
  {
    map k | k in active :: Demand(demand, k)
  }

  /** Pools share by demand, and by target once no active pool has any demand. */
  function Weights(targets: Table, demand: Table, active: set<Name>): (w: Table)
    requires active <= Positives(targets)
    ensures w.Keys == active && forall k :: k in active ==> 0 <= w[k]
    ensures active != {} ==> 0 < Sum(w, active)
    ensures Sum(Demands(demand, active), active) > 0 ==> w == Demands(demand, active)
  {
    var w := Demands(demand, active);
    SumNonNegative(w, active);
    if Sum(w, active) != 0 then w
    else
      var t := map k | k in active :: targets[k];
      SumNonNegative(t, active);
      t
  }

  /** The caps do not exceed their proportional part of what remains. */
  predicate AtMostPart(caps: int, total: int, remaining: int, part: int) {
    caps * total <= remaining * part
  }

  /** One more slot would put the share past its proportional part of what remains. */
  predicate WithinOneSlot(remaining: int, d: int, share: int, total: int) {
    remaining * d < (share + 1) * total
  }

  function Capped(targets: Table, weights: Table, total: int, active: set<Name>, remaining: int): set<Name>
    requires active <= targets.Keys && active <= weights.Keys
  {
    set k | k in active && AtMostPart(targets[k], total, remaining, weights[k])
  }

  // ---- largest remainders ----

  predicate Precedes(rem: Table, j: Name, k: Name)
    requires j in rem && k in rem
  {
    rem[k] < rem[j] || (rem[j] == rem[k] && j < k)
  }

  predicate IsFirst(rem: Table, s: set<Name>, k: Name)
    requires s <= rem.Keys
  {
    k in s && forall j :: j in s && j != k ==> Precedes(rem, k, j)
  }

  lemma {:induction false} FirstExists(rem: Table, s: set<Name>)
    requires s != {} && s <= rem.Keys
    ensures exists k :: IsFirst(rem, s, k)
  {
    Inhabited(s);
    var k :| k in s;
    var ahead := set j | j in s && Precedes(rem, j, k);
    if ahead == {} {
      assert forall j :: j in s && j != k ==> j in ahead || Precedes(rem, k, j);
      assert IsFirst(rem, s, k);
    } else {
      assert k !in ahead;
      FirstExists(rem, ahead);
      var m :| IsFirst(rem, ahead, m);
      forall j | j in s && j != m ensures Precedes(rem, m, j) {
        if j !in ahead {
          assert Precedes(rem, m, k);
        }
      }
      assert IsFirst(rem, s, m);
    }
  }

  function First(rem: Table, s: set<Name>): (k: Name)
    requires s != {} && s <= rem.Keys
    ensures IsFirst(rem, s, k)
  {
    FirstExists(rem, s);
    var k :| k in s && IsFirst(rem, s, k);
    k
  }

  /** The n pools of s with the largest remainders, ties to the smaller name. */
  function Winners(rem: Table, s: set<Name>, n: nat): (w: set<Name>)
    requires s <= rem.Keys && n <= |s|
    ensures w <= s && |w| == n
    ensures forall j, k :: j in w && k in s - w ==> Precedes(rem, j, k)
  {
    if n == 0 then {}
    else var k := First(rem, s); {k} + Winners(rem, s - {k}, n - 1)
  }

  function Quotients(weights: Table, total: int, remaining: int, active: set<Name>): (q: Table)
    requires active <= weights.Keys && 0 < total
    ensures q.Keys == active
  {
    map k | k in active :: remaining * weights[k] / total
  }

  function Remainders(weights: Table, total: int, remaining: int, active: set<Name>): (r: Table)
    requires active <= weights.Keys && 0 < total
    ensures r.Keys == active
  {
    map k | k in active :: remaining * weights[k] % total
  }

  /** Pool k's part of what remains is q slots and a remainder r. */
  predicate Divides(weights: Table, total: int, remaining: int, q: Table, r: Table, k: Name)
    requires k in weights && k in q && k in r
  {
    IsDivMod(remaining * weights[k], total, q[k], r[k])
  }

  lemma {:induction false} QuotientsAndRemainders(weights: Table, total: int, remaining: int, s: set<Name>,
                                                  q: Table, r: Table)
    requires s <= weights.Keys && s <= q.Keys && s <= r.Keys && 0 < total
    requires forall k :: k in s ==> Divides(weights, total, remaining, q, r, k)
    ensures remaining * Sum(weights, s) == total * Sum(q, s) + Sum(r, s)
  {
    if s != {} {
      var k := Least(s);
      QuotientsAndRemainders(weights, total, remaining, s - {k}, q, r);
      ProductOfSum(remaining, weights[k], Sum(weights, s - {k}));
      ProductOfSum(total, q[k], Sum(q, s - {k}));
    }
  }

  predicate SpareInUnits(total: int, spare: int, sum: int) { total * spare == sum }

  /** The slots left over are the sum of the remainders, in units of the total weight. */
  lemma SpareIsRemainderSum(weights: Table, total: int, remaining: int, active: set<Name>, q: Table, r: Table)
    requires active != {} && active == weights.Keys == q.Keys == r.Keys && total == Sum(weights, active) && 0 < total
    requires forall k :: k in active ==> Divides(weights, total, remaining, q, r, k)
    ensures SpareInUnits(total, remaining - Sum(q, active), Sum(r, active))
    ensures 0 <= remaining - Sum(q, active) < |active|
  {
    QuotientsAndRemainders(weights, total, remaining, active, q, r);
    RemainderSumBound(r, total, active);
    SpareFromSums(total, remaining, Sum(q, active), Sum(r, active), |active|);
  }

  lemma {:induction false} RemainderSumBound(r: Table, total: int, s: set<Name>)
    requires s <= r.Keys && forall k :: k in s ==> 0 <= r[k] < total
    ensures 0 <= Sum(r, s) <= total * |s|
    ensures s != {} ==> Sum(r, s) < total * |s|
  {
    if s != {} {
      var k := Least(s);
      RemainderSumBound(r, total, s - {k});
      ProductOfSum(total, 1, |s - {k}|);
    }
  }

  lemma SpareFromSums(total: int, remaining: int, q: int, r: int, n: int)
    requires 0 < total && remaining * total == total * q + r && 0 <= r < total * n
    ensures SpareInUnits(total, remaining - q, r) && 0 <= remaining - q < n
  {
    assert total * (remaining - q) == remaining * total - total * q;
    BoundedByFactor(total, remaining - q, r, n);
  }

  lemma SharesDivide(weights: Table, total: int, remaining: int, active: set<Name>, k: Name)
    requires active <= weights.Keys && 0 < total && k in active
    ensures Divides(weights, total, remaining, Quotients(weights, total, remaining, active),
                    Remainders(weights, total, remaining, active), k)
  {
    DivMod(remaining * weights[k], total);
  }

  lemma AllSharesDivide(weights: Table, total: int, remaining: int, active: set<Name>)
    requires active <= weights.Keys && 0 < total
    ensures var q, r := Quotients(weights, total, remaining, active), Remainders(weights, total, remaining, active);
            forall k :: k in active ==> Divides(weights, total, remaining, q, r, k)
  {
    hide Divides;
    forall k | k in active
      ensures Divides(weights, total, remaining, Quotients(weights, total, remaining, active),
                      Remainders(weights, total, remaining, active), k)
    {
      SharesDivide(weights, total, remaining, active, k);
    }
  }

  lemma SharesSpare(weights: Table, total: int, remaining: int, active: set<Name>)
    requires active != {} && active == weights.Keys && total == Sum(weights, active) && 0 < total
    ensures var q, r := Quotients(weights, total, remaining, active), Remainders(weights, total, remaining, active);
            && SpareInUnits(total, remaining - Sum(q, active), Sum(r, active))
            && 0 <= remaining - Sum(q, active) < |active|
  {
    hide *;
    AllSharesDivide(weights, total, remaining, active);
    SpareIsRemainderSum(weights, total, remaining, active, Quotients(weights, total, remaining, active),
                        Remainders(weights, total, remaining, active));
  }

  lemma BoundedByFactor(total: int, spare: int, sum: int, n: int)
    requires 0 < total && total * spare == sum && 0 <= sum < total * n
    ensures 0 <= spare < n
  {
    SignOfProduct(total, spare);
    assert total * (n - spare) == total * n - total * spare;
    SignOfProduct(total, n - spare);
  }

  lemma {:induction false} SumOfWinners(q: Table, winners: set<Name>, s: set<Name>, shares: Table)
    requires s <= q.Keys && s <= shares.Keys && winners <= s
    requires forall k :: k in s ==> shares[k] == q[k] + if k in winners then 1 else 0
    ensures Sum(shares, s) == Sum(q, s) + |winners|
  {
    if s != {} {
      var k := Least(s);
      SumOfWinners(q, winners - {k}, s - {k}, shares);
      if k in winners {
        assert |winners| == |winners - {k}| + 1;
      } else {
        assert winners - {k} == winners;
      }
    }
  }

  lemma QuotientBelow(a: int, total: int, t: int)
    requires 0 < total && a < t * total
    ensures a / total < t
  {
    DivMod(a, total);
    assert total * (t - a / total) == t * total - total * (a / total);
    SignOfProduct(total, t - a / total);
  }

  lemma QuotientNonNegative(a: int, total: int)
    requires 0 < total && 0 <= a
    ensures 0 <= a / total
  {
    DivMod(a, total);
    assert total * (a / total + 1) == total * (a / total) + total;
    SignOfProduct(total, a / total + 1);
  }

  // ---- remainders go to pools that have one ----

  lemma OneMoreTotal(total: int, n: int)
    requires 0 < total
    ensures total * (n - 1) < total * n
  {
  }

  /** If a winner had no remainder, neither would any loser. */
  lemma ZeroWinnerBound(rem: Table, total: int, active: set<Name>, winners: set<Name>, k: Name)
    requires rem.Keys == active && winners <= active && k in winners && rem[k] == 0
    requires forall j :: j in active ==> 0 <= rem[j] < total
    requires forall w, l :: w in winners && l in active - winners ==> Precedes(rem, w, l)
    ensures Sum(rem, active) <= total * (|winners| - 1)
  {
    forall j | j in active - winners ensures rem[j] == 0 {
      assert Precedes(rem, k, j);
    }
    SumSplit(rem, active, winners);
    SumConstant(rem, active - winners, 0);
    SumPick(rem, winners, k);
    RemainderSumBound(rem, total, winners - {k});
    assert |winners - {k}| == |winners| - 1;
  }

  /** A remainder slot never goes to a pool whose remainder is zero. */
  lemma WinnersHaveRemainders(weights: Table, total: int, remaining: int, active: set<Name>, k: Name)
    requires active != {} && active == weights.Keys && total == Sum(weights, active) && 0 < total
    requires k in active && remaining * weights[k] % total == 0
    ensures var q := Quotients(weights, total, remaining, active);
            && 0 <= remaining - Sum(q, active) <= |active|
            && k !in Winners(Remainders(weights, total, remaining, active), active, remaining - Sum(q, active))
  {
    var q, rem := Quotients(weights, total, remaining, active), Remainders(weights, total, remaining, active);
    SharesSpare(weights, total, remaining, active);
    var spare := remaining - Sum(q, active);
    var winners := Winners(rem, active, spare);
    OneMoreTotal(total, spare);
    forall j | j in active ensures 0 <= rem[j] < total { DivMod(remaining * weights[j], total); }
    if k in winners {
      ZeroWinnerBound(rem, total, active, winners, k);
    }
  }

  // ---- levels ----

  lemma CrossLevels(remaining: int, total: int, x: int, di: int, y: int, dj: int)
    requires 0 < total && 0 < dj && 0 <= di
    requires AtMostPart(x, total, remaining, dj) && WithinOneSlot(remaining, di, y, total)
    ensures x * di < (y + 1) * dj
  {
    ProductNonNegative(di, remaining * dj - x * total);
    assert di * (remaining * dj - x * total) == remaining * di * dj - x * di * total;
    SignOfProduct(dj, (y + 1) * total - remaining * di);
    assert dj * ((y + 1) * total - remaining * di) == (y + 1) * dj * total - remaining * di * dj;
    assert total * ((y + 1) * dj - x * di) == (y + 1) * dj * total - x * di * total;
    SignOfProduct(total, (y + 1) * dj - x * di);
  }

  /** Moving one slot from j to i would not bring i nearer its share than j. */
  predicate Fair(rj: int, di: int, ri: int, dj: int) {
    (rj - 1) * di < (ri + 1) * dj
  }

  lemma FairAcross(remaining: int, total: int, rj: int, di: int, ri: int, dj: int)
    requires 0 < total && 0 < dj && 0 <= di
    requires AtMostPart(rj - 1, total, remaining, dj) && WithinOneSlot(remaining, di, ri, total)
    ensures Fair(rj, di, ri, dj)
  {
    CrossLevels(remaining, total, rj - 1, di, ri, dj);
  }

  lemma OneLess(x: int, total: int, remaining: int, d: int)
    requires 0 < total && AtMostPart(x, total, remaining, d)
    ensures AtMostPart(x - 1, total, remaining, d)
  {
    assert (x - 1) * total == x * total - total;
  }

  /** The capped targets never use up more than what remains. */
  lemma CappedFits(targets: Table, weights: Table, total: int, active: set<Name>, remaining: int)
    requires active <= targets.Keys && active <= weights.Keys && 0 <= remaining
    requires (forall k :: k in active ==> 0 <= weights[k]) && total == Sum(weights, active) && 0 < total
    ensures var capped := Capped(targets, weights, total, active, remaining);
            && AtMostPart(Sum(targets, capped), total, remaining, Sum(weights, capped))
            && Sum(targets, capped) <= remaining
  {
    var capped := Capped(targets, weights, total, active, remaining);
    SumLinear(total, targets, remaining, weights, capped);
    assert Sum(targets, capped) * total == total * Sum(targets, capped);
    SumSplit(weights, active, capped);
    SumNonNegative(weights, active - capped);
    CancelFactor(Sum(targets, capped), remaining, total, Sum(weights, capped));
  }

  lemma CancelFactor(x: int, y: int, total: int, part: int)
    requires AtMostPart(x, total, y, part) && part <= total && 0 < total && 0 <= y
    ensures x <= y
  {
    ProductNonNegative(y, total - part);
    assert y * (total - part) == y * total - y * part;
    assert total * (x - y) == x * total - y * total;
    SignOfProduct(total, x - y);
  }

  /** Settling pools at or below the level never lowers the level of the rest,
      so whoever was at or below it stays there. */
  lemma LevelUp(t: int, d: int, remaining: int, total: int, caps: int, part: int, left: int, rest: int)
    requires AtMostPart(t, total, remaining, d) && AtMostPart(caps, total, remaining, part)
    requires left == remaining - caps && rest == total - part
    requires 0 <= d && 0 < rest && 0 < total
    ensures AtMostPart(t, rest, left, d)
  {
    assert left * total - remaining * rest == remaining * part - caps * total;
    ProductNonNegative(d, left * total - remaining * rest);
    ProductNonNegative(rest, remaining * d - t * total);
    assert d * (left * total - remaining * rest) == left * d * total - remaining * rest * d;
    assert rest * (remaining * d - t * total) == remaining * rest * d - t * rest * total;
    assert total * (left * d - t * rest) == left * d * total - t * rest * total;
    SignOfProduct(total, left * d - t * rest);
  }

  // ---- what the rounds keep ----

  /** Everybody settled so far had demand and sits at or below the level of the rest. */
  ghost predicate Level(targets: Table, demand: Table, active: set<Name>, remaining: int)
    requires active <= Positives(targets)
  {
    var total := Sum(Demands(demand, active), active);
    total > 0 ==>
      forall j :: j in Positives(targets) - active ==>
        Demand(demand, j) > 0 && AtMostPart(targets[j], total, remaining, Demand(demand, j))
  }

  lemma StayBelow(targets: Table, demand: Table, settled: set<Name>, remaining: int, total: int,
                  caps: int, part: int, left: int, rest: int)
    requires settled <= Positives(targets)
    requires forall j :: j in settled ==> AtMostPart(targets[j], total, remaining, Demand(demand, j))
    requires AtMostPart(caps, total, remaining, part)
    requires left == remaining - caps && rest == total - part && 0 < rest && 0 < total
    ensures forall j :: j in settled ==> Demand(demand, j) > 0 && AtMostPart(targets[j], rest, left, Demand(demand, j))
  {
    forall j | j in settled
      ensures Demand(demand, j) > 0 && AtMostPart(targets[j], rest, left, Demand(demand, j))
    {
      var t, d := targets[j], Demand(demand, j);
      SignOfProduct(t, total);
      assert d == 0 ==> remaining * d == 0;
      LevelUp(t, d, remaining, total, caps, part, left, rest);
    }
  }

  /** The demand of the active pools is that of the capped ones and of the rest. */
  lemma DemandSplit(demand: Table, active: set<Name>, capped: set<Name>)
    requires capped <= active
    ensures Sum(Demands(demand, active), active)
            == Sum(Demands(demand, active), capped) + Sum(Demands(demand, active - capped), active - capped)
    ensures 0 <= Sum(Demands(demand, active), capped)
  {
    SumSplit(Demands(demand, active), active, capped);
    SumAgree(Demands(demand, active), Demands(demand, active - capped), active - capped);
    SumNonNegative(Demands(demand, active), capped);
  }

  lemma LevelKept(targets: Table, demand: Table, active: set<Name>, remaining: int, weights: Table,
                  capped: set<Name>, rest: set<Name>, left: int)
    requires active <= Positives(targets) && active != {} && 0 <= remaining && Level(targets, demand, active, remaining)
    requires weights == Weights(targets, demand, active)
    requires capped == Capped(targets, weights, Sum(weights, active), active, remaining)
    requires rest == active - capped && left == remaining - Sum(targets, capped)
    requires Sum(Demands(demand, rest), rest) > 0
    ensures Level(targets, demand, rest, left)
  {
    DemandSplit(demand, active, capped);
    var total, part := Sum(Demands(demand, active), active), Sum(Demands(demand, active), capped);
    CappedFits(targets, weights, total, active, remaining);
    StayBelow(targets, demand, Positives(targets) - rest, remaining, total,
              Sum(targets, capped), part, left, Sum(Demands(demand, rest), rest));
  }

  lemma LevelStep(targets: Table, demand: Table, active: set<Name>, remaining: int, weights: Table,
                  capped: set<Name>, rest: set<Name>, left: int)
    requires active <= Positives(targets) && active != {} && 0 <= remaining && Level(targets, demand, active, remaining)
    requires weights == Weights(targets, demand, active)
    requires capped == Capped(targets, weights, Sum(weights, active), active, remaining)
    requires rest == active - capped && left == remaining - Sum(targets, capped)
    ensures Level(targets, demand, rest, left)
  {
    if Sum(Demands(demand, rest), rest) > 0 {
      LevelKept(targets, demand, active, remaining, weights, capped, rest, left);
    }
  }

  // ---- the promises ----

  /** Every slot is handed out that a target can use, and no pool passes its target. */
  ghost predicate Conserves(targets: Table, ceiling: int, r: Table) {
    && r.Keys == targets.Keys
    && Sum(r, r.Keys) == Min(Max(0, ceiling), Sum(targets, Positives(targets)))
    && forall k :: k in r ==> 0 <= r[k] <= Max(0, targets[k])
  }

  /** A pool without demand holds a slot only when every pool with demand is at its target. */
  ghost predicate ServesDemandFirst(targets: Table, demand: Table, r: Table)
    requires r.Keys == targets.Keys
  {
    forall j, k :: j in r && k in r && Demand(demand, j) > 0 && Demand(demand, k) == 0 && r[k] > 0
      ==> r[j] == Max(0, targets[j])
  }

  /** If i ends below its target, then (r_j - 1) / d_j < (r_i + 1) / d_i for every pool j with demand. */
  ghost predicate WaterFilled(targets: Table, demand: Table, r: Table)
    requires r.Keys == targets.Keys
  {
    forall i, j :: i in r && j in r && Demand(demand, i) > 0 && Demand(demand, j) > 0 && r[i] < targets[i]
      ==> Fair(r[j], Demand(demand, i), r[i], Demand(demand, j))
  }

  /** The pools outside `active` are settled at their targets; the active ones, none
      of which reaches its target at the level, split what remains exactly in
      proportion, rounded down, the spare slots going to the largest remainders. */
  ghost predicate LastRound(targets: Table, demand: Table, active: set<Name>, remaining: int, r: Table)
    requires active <= Positives(targets) && r.Keys == targets.Keys
  {
    && (forall k :: k in r && k !in active ==> r[k] == Max(0, targets[k]))
    && if active == {} || remaining == 0 then forall k :: k in active ==> r[k] == 0
       else
         var weights := Weights(targets, demand, active);
         var total := Sum(weights, active);
         var q := Quotients(weights, total, remaining, active);
         var spare := remaining - Sum(q, active);
         && Capped(targets, weights, total, active, remaining) == {}
         && 0 <= spare <= |active|
         && forall k :: k in active ==>
              r[k] == q[k] + if k in Winners(Remainders(weights, total, remaining, active), active, spare) then 1 else 0
  }

  /** For pools settled before the last round the bound is a whole slot sharper:
      r_j / d_j < (r_i + 1) / d_i. */
  ghost predicate SettledBelow(targets: Table, demand: Table, active: set<Name>, r: Table)
    requires r.Keys == targets.Keys
  {
    forall i, j :: i in r && j in r && j !in active && Demand(demand, i) > 0 && Demand(demand, j) > 0 && r[i] < targets[i]
      ==> Fair(r[j] + 1, Demand(demand, i), r[i], Demand(demand, j))
  }

  /** Among the pools without demand the same bound holds with the targets as weights:
      if i ends below its target, then (r_j - 1) / t_j < (r_i + 1) / t_i. */
  ghost predicate FilledByTarget(targets: Table, demand: Table, r: Table)
    requires r.Keys == targets.Keys
  {
    forall i, j :: i in r && j in r && Demand(demand, i) == 0 && Demand(demand, j) == 0
                   && targets[j] > 0 && 0 <= r[i] < targets[i]
      ==> Fair(r[j], targets[i], r[i], targets[j])
  }

  // ---- pools without demand settle together ----

  ghost predicate Together(targets: Table, demand: Table, active: set<Name>) {
    forall j :: j in Positives(targets) - active && Demand(demand, j) == 0 ==> active == {}
  }

  /** A pool weighed by nothing is never capped; pools weighed by their targets are capped together. */
  lemma CappedTogether(targets: Table, demand: Table, open: set<Name>, left: int, capped: set<Name>, j: Name)
    requires open <= Positives(targets) && open != {} && 0 <= left
    requires var w := Weights(targets, demand, open); capped == Capped(targets, w, Sum(w, open), open, left)
    requires j in capped && Demand(demand, j) == 0
    ensures open <= capped
  {
    var weights := Weights(targets, demand, open);
    var total := Sum(weights, open);
    SignOfProduct(total, targets[j]);
    assert weights[j] == targets[j];
    CancelTarget(targets[j], total, left);
    forall k | k in open ensures k in capped {
      assert weights[k] == targets[k];
      CancelTarget(targets[k], total, left);
    }
  }

  lemma CancelTarget(t: int, total: int, left: int)
    requires 0 < t
    ensures AtMostPart(t, total, left, t) <==> total <= left
  {
    assert t * total - left * t == t * (total - left);
    SignOfProduct(t, total - left);
  }

  lemma TogetherStep(targets: Table, demand: Table, open: set<Name>, left: int, capped: set<Name>)
    requires open <= Positives(targets) && open != {} && 0 <= left && Together(targets, demand, open)
    requires var w := Weights(targets, demand, open); capped == Capped(targets, w, Sum(w, open), open, left)
    ensures Together(targets, demand, open - capped)
  {
    hide Capped, Weights, Sum;
    forall j | j in Positives(targets) - (open - capped) && Demand(demand, j) == 0 ensures open - capped == {} {
      if j in capped {
        CappedTogether(targets, demand, open, left, capped, j);
      }
    }
  }

  lemma RoundFillsByTarget(targets: Table, demand: Table, active: set<Name>, remaining: int, r: Table, i: Name, j: Name)
    requires active <= Positives(targets) && 0 <= remaining && r.Keys == targets.Keys
    requires Together(targets, demand, active) && LastRound(targets, demand, active, remaining, r)
    requires i in r && j in r && Demand(demand, i) == 0 && Demand(demand, j) == 0 && targets[j] > 0 && 0 <= r[i] < targets[i]
    ensures Fair(r[j], targets[i], r[i], targets[j])
  {
    assert i in active;
    assert j in active;
    if remaining == 0 {
      NothingIsFair(targets[i], r[i], targets[j]);
    } else if Sum(Demands(demand, active), active) > 0 {
      UnweighedGetsNothing(targets, demand, active, remaining, r, j);
      NothingIsFair(targets[i], r[i], targets[j]);
    } else {
      hide Winners, Capped, Remainders, Fair;
      SumNonNegative(Demands(demand, active), active);
      var weights := Weights(targets, demand, active);
      var total := Sum(weights, active);
      ShareNearLevel(weights[i], total, remaining, r[i]);
      ShareNearLevel(weights[j], total, remaining, r[j]);
      FairAcross(remaining, total, r[j], targets[i], r[i], targets[j]);
    }
  }

  lemma NoExtra(weights: Table, active: set<Name>, remaining: int, j: Name)
    requires active == weights.Keys && active != {} && 0 < Sum(weights, active) && j in active
    requires remaining * weights[j] % Sum(weights, active) == 0
    ensures Extra(weights, Sum(weights, active), remaining, active, j) == 0
  {
    hide Sum, Winners, Quotients, Remainders;
    WinnersHaveRemainders(weights, Sum(weights, active), remaining, active, j);
  }

  lemma UnweighedShare(targets: Table, weights: Table, active: set<Name>, remaining: int, j: Name)
    requires active == weights.Keys && active != {} && 0 < Sum(weights, active) && j in active && weights[j] == 0
    ensures var total := Sum(weights, active);
            Quotients(weights, total, remaining, active)[j] == 0 && Extra(weights, total, remaining, active, j) == 0
  {
    hide Sum, Extra;
    NoPart(remaining, weights[j], Sum(weights, active));
    NoExtra(weights, active, remaining, j);
  }

  /** While some open pool has demand, one without any gets nothing. */
  lemma UnweighedGetsNothing(targets: Table, demand: Table, active: set<Name>, remaining: int, r: Table, j: Name)
    requires active <= Positives(targets) && 0 < remaining && r.Keys == targets.Keys
    requires LastRound(targets, demand, active, remaining, r) && Sum(Demands(demand, active), active) > 0
    requires j in active && Demand(demand, j) == 0
    ensures r[j] == 0
  {
    hide LastRound, Sum, Quotients, Extra, Weights, Demands;
    OpenShare(targets, demand, active, remaining, r, j);
    UnweighedShare(targets, Weights(targets, demand, active), active, remaining, j);
  }

  lemma NoPart(remaining: int, w: int, total: int)
    requires w == 0 && 0 < total
    ensures remaining * w / total == 0 && remaining * w % total == 0
  {
    assert remaining * w == 0;
  }

  lemma NothingIsFair(ti: int, ri: int, tj: int)
    requires 0 < ti && 0 <= ri && 0 < tj
    ensures Fair(0, ti, ri, tj)
  {
    ProductNonNegative(ri, tj);
  }

  // ---- the last round keeps them ----

  lemma ActiveShares(targets: Table, demand: Table, active: set<Name>, remaining: int, r: Table)
    requires active <= Positives(targets) && active != {} && 0 < remaining && r.Keys == targets.Keys
    requires LastRound(targets, demand, active, remaining, r)
    ensures Sum(r, active) == remaining <= Sum(targets, active)
    ensures forall k :: k in active ==> 0 <= r[k] <= targets[k]
  {
    var weights := Weights(targets, demand, active);
    var total := Sum(weights, active);
    var q := Quotients(weights, total, remaining, active);
    SumOfWinners(q, Winners(Remainders(weights, total, remaining, active), active, remaining - Sum(q, active)), active, r);
    forall k | k in active ensures 0 <= r[k] <= targets[k] {
      ShareInRange(targets[k], weights[k], total, remaining);
      assert k !in Capped(targets, weights, total, active, remaining);
    }
    SumLe(r, targets, active);
  }

  lemma ShareInRange(t: int, w: int, total: int, remaining: int)
    requires 0 < total && 0 <= remaining && 0 <= w
    ensures 0 <= remaining * w / total
    ensures !AtMostPart(t, total, remaining, w) ==> remaining * w / total < t
  {
    ProductNonNegative(remaining, w);
    QuotientNonNegative(remaining * w, total);
    if !AtMostPart(t, total, remaining, w) {
      QuotientBelow(remaining * w, total, t);
    }
  }

  lemma OpenSum(targets: Table, demand: Table, active: set<Name>, remaining: int, r: Table)
    requires active <= Positives(targets) && 0 <= remaining && r.Keys == targets.Keys
    requires LastRound(targets, demand, active, remaining, r)
    ensures Sum(r, active) == Min(remaining, Sum(targets, active))
    ensures forall k :: k in r ==> 0 <= r[k] <= Max(0, targets[k])
  {
    SumNonNegative(targets, active);
    if active == {} || remaining == 0 {
      SumConstant(r, active, 0);
    } else {
      ActiveShares(targets, demand, active, remaining, r);
    }
  }

  lemma SumByParts(r: Table, targets: Table, positives: set<Name>, active: set<Name>)
    requires r.Keys == targets.Keys && active <= positives <= targets.Keys
    requires forall k :: k in r && k !in positives ==> r[k] == 0
    requires forall k :: k in positives && k !in active ==> r[k] == targets[k]
    ensures Sum(r, r.Keys) == Sum(r, active) + Sum(targets, positives - active)
    ensures Sum(targets, positives) == Sum(targets, active) + Sum(targets, positives - active)
  {
    SumSplit(r, r.Keys, positives);
    SumConstant(r, r.Keys - positives, 0);
    SumSplit(r, positives, active);
    SumSplit(targets, positives, active);
    SumAgree(r, targets, positives - active);
  }

  lemma RoundConserves(targets: Table, demand: Table, ceiling: int, active: set<Name>, remaining: int, r: Table)
    requires active <= Positives(targets) && 0 <= remaining && r.Keys == targets.Keys
    requires remaining == Max(0, ceiling) - Sum(targets, Positives(targets) - active)
    requires LastRound(targets, demand, active, remaining, r)
    ensures Conserves(targets, ceiling, r)
  {
    OpenSum(targets, demand, active, remaining, r);
    SumByParts(r, targets, Positives(targets), active);
    hide LastRound, Sum;
  }

  /** Some active pool has demand, so everybody active is weighed by demand. */
  lemma DemandWeighs(targets: Table, demand: Table, active: set<Name>, j: Name)
    requires active <= Positives(targets) && j in active && Demand(demand, j) > 0
    ensures Sum(Demands(demand, active), active) > 0
    ensures Weights(targets, demand, active) == Demands(demand, active)
  {
    SumNonNegative(Demands(demand, active), active);
  }

  lemma RoundServesDemandFirst(targets: Table, demand: Table, active: set<Name>, remaining: int, r: Table, j: Name, k: Name)
    requires active <= Positives(targets) && 0 <= remaining && r.Keys == targets.Keys
    requires Level(targets, demand, active, remaining) && LastRound(targets, demand, active, remaining, r)
    requires j in r && k in r && Demand(demand, j) > 0 && Demand(demand, k) == 0 && r[k] > 0
    ensures r[j] == Max(0, targets[j])
  {
    if j in active {
      DemandWeighs(targets, demand, active, j);
      if k in active && remaining > 0 {
        var weights := Weights(targets, demand, active);
        assert remaining * weights[k] == 0;
        WinnersHaveRemainders(weights, Sum(weights, active), remaining, active, k);
      }
    }
  }

  lemma RoundWaterFills(targets: Table, demand: Table, active: set<Name>, remaining: int, r: Table, i: Name, j: Name)
    requires active <= Positives(targets) && 0 <= remaining && r.Keys == targets.Keys
    requires Level(targets, demand, active, remaining) && LastRound(targets, demand, active, remaining, r)
    requires i in r && j in r && Demand(demand, i) > 0 && Demand(demand, j) > 0 && r[i] < targets[i]
    ensures Fair(r[j], Demand(demand, i), r[i], Demand(demand, j))
  {
    hide Winners, Capped, Remainders;
    var di, dj := Demand(demand, i), Demand(demand, j);
    assert i in active;
    DemandWeighs(targets, demand, active, i);
    var weights := Weights(targets, demand, active);
    var total := Sum(weights, active);
    if remaining > 0 {
      ShareNearLevel(weights[i], total, remaining, r[i]);
    } else {
      SignOfProduct(di, total);
    }
    if j !in Positives(targets) {
      assert r[j] == 0;
      OneLess(0, total, remaining, dj);
    } else if j !in active {
      OneLess(r[j], total, remaining, dj);
    } else if remaining > 0 {
      ShareNearLevel(weights[j], total, remaining, r[j]);
    } else {
      OneLess(0, total, remaining, dj);
    }
    FairAcross(remaining, total, r[j], di, r[i], dj);
  }

  lemma RoundSettledBelow(targets: Table, demand: Table, active: set<Name>, remaining: int, r: Table, i: Name, j: Name)
    requires active <= Positives(targets) && 0 <= remaining && r.Keys == targets.Keys
    requires Level(targets, demand, active, remaining) && LastRound(targets, demand, active, remaining, r)
    requires i in r && j in r && Demand(demand, i) > 0 && Demand(demand, j) > 0 && r[i] < targets[i] && j !in active
    requires 0 <= r[i]
    ensures Fair(r[j] + 1, Demand(demand, i), r[i], Demand(demand, j))
  {
    hide Winners, Capped, Remainders;
    var di, dj := Demand(demand, i), Demand(demand, j);
    assert i in active;
    DemandWeighs(targets, demand, active, i);
    var weights := Weights(targets, demand, active);
    var total := Sum(weights, active);
    if remaining > 0 {
      ShareNearLevel(weights[i], total, remaining, r[i]);
    } else {
      SignOfProduct(di, total);
    }
    if j !in Positives(targets) {
      ProductNonNegative(remaining, dj);
    }
    FairAcross(remaining, total, r[j] + 1, di, r[i], dj);
  }

  /** Whether pool k gets a spare slot in the last round, as 1 or 0. */
  function Extra(weights: Table, total: int, remaining: int, active: set<Name>, k: Name): int
    requires active <= weights.Keys && 0 < total
  {
    var spare := remaining - Sum(Quotients(weights, total, remaining, active), active);
    if 0 <= spare <= |active| && k in Winners(Remainders(weights, total, remaining, active), active, spare) then 1 else 0
  }

  /** How the sharper bound reads in remainders and spare slots: pool j's distance above
      its exact part, per demand, stays below i's distance to one slot above its own. */
  predicate SpareAllows(total: int, dj: int, xj: int, remj: int, di: int, xi: int, remi: int) {
    (total * xj - remj) * di < (total * (xi + 1) - remi) * dj
  }

  lemma ScaledDifference(remaining: int, total: int, di: int, ri: int, u: int, dj: int, rj: int, v: int)
    requires total * (ri + 1) == remaining * di + u && total * rj == remaining * dj + v
    ensures total * ((ri + 1) * dj - rj * di) == u * dj - v * di
  {
    assert total * ((ri + 1) * dj) == (remaining * di + u) * dj;
    assert total * (rj * di) == (remaining * dj + v) * di;
    assert remaining * di * dj == remaining * dj * di;
  }

  lemma SharperIff(remaining: int, total: int, di: int, qi: int, remi: int, xi: int, dj: int, qj: int, remj: int, xj: int)
    requires 0 < total && IsDivMod(remaining * di, total, qi, remi) && IsDivMod(remaining * dj, total, qj, remj)
    ensures Fair(qj + xj + 1, di, qi + xi, dj) <==> SpareAllows(total, dj, xj, remj, di, xi, remi)
  {
    var u, v := total * (xi + 1) - remi, total * xj - remj;
    ProductOfSum(total, qi, xi + 1);
    ProductOfSum(total, qj, xj);
    ScaledDifference(remaining, total, di, qi + xi, u, dj, qj + xj, v);
    SignOfProduct(total, (qi + xi + 1) * dj - (qj + xj) * di);
  }

  /** The bound r_j / d_j < (r_i + 1) / d_i between two pools of the last round, in terms
      of that round's remainders and spare slots. */
  ghost predicate SharperInRound(targets: Table, demand: Table, active: set<Name>, remaining: int, i: Name, j: Name)
    requires active <= Positives(targets) && i in active && j in active
  {
    var weights := Weights(targets, demand, active);
    var total := Sum(weights, active);
    var rem := Remainders(weights, total, remaining, active);
    remaining == 0
    || SpareAllows(total, Demand(demand, j), Extra(weights, total, remaining, active, j), rem[j],
                   Demand(demand, i), Extra(weights, total, remaining, active, i), rem[i])
  }

  lemma RoundSharperExactly(targets: Table, demand: Table, active: set<Name>, remaining: int, r: Table, i: Name, j: Name)
    requires active <= Positives(targets) && 0 <= remaining && r.Keys == targets.Keys
    requires LastRound(targets, demand, active, remaining, r)
    requires i in active && j in active && Demand(demand, i) > 0 && Demand(demand, j) > 0
    ensures Fair(r[j] + 1, Demand(demand, i), r[i], Demand(demand, j))
            <==> SharperInRound(targets, demand, active, remaining, i, j)
  {
    hide Winners, Capped, Fair, SpareAllows, Divides;
    DemandWeighs(targets, demand, active, i);
    if remaining == 0 {
      assert Fair(1, Demand(demand, i), 0, Demand(demand, j)) by {
        FairAtZero(Demand(demand, i), Demand(demand, j));
      }
    } else {
      var weights := Weights(targets, demand, active);
      var total := Sum(weights, active);
      var q, rem := Quotients(weights, total, remaining, active), Remainders(weights, total, remaining, active);
      DivMod(remaining * weights[i], total);
      DivMod(remaining * weights[j], total);
      SharperIff(remaining, total, weights[i], q[i], rem[i], Extra(weights, total, remaining, active, i),
                 weights[j], q[j], rem[j], Extra(weights, total, remaining, active, j));
    }
  }

  lemma FairAtZero(di: int, dj: int)
    requires 0 < dj
    ensures Fair(1, di, 0, dj)
  {
  }

  /** A pool without a spare slot always meets the bound. */
  lemma NoSpareMeetsBound(total: int, dj: int, remj: int, di: int, xi: int, remi: int)
    requires 0 < total && 0 < di && 0 < dj && 0 <= xi && 0 <= remj && remi < total
    ensures SpareAllows(total, dj, 0, remj, di, xi, remi)
  {
    ProductNonNegative(remj, di);
    ProductNonNegative(total, xi);
    SignOfProduct(dj, total * (xi + 1) - remi);
    ProductOfSum(total, xi, 1);
  }

  /** A share within one of its quotient is within one slot of its proportional part. */
  lemma ShareNearLevel(w: int, total: int, remaining: int, share: int)
    requires 0 < total && remaining * w / total <= share <= remaining * w / total + 1
    ensures WithinOneSlot(remaining, w, share, total)
    ensures AtMostPart(share - 1, total, remaining, w)
  {
    var q := remaining * w / total;
    DivMod(remaining * w, total);
    assert total * (share + 1) == total * q + total * (share + 1 - q);
    ProductNonNegative(total, share - q);
    ProductNonNegative(total, q + 1 - share);
    assert total * (share - 1) == total * q - total * (q + 1 - share);
    ProductOfSum(total, share - q, 1);
  }

  // ---- the loop ----

  method CapPools(result0: Table, targets: Table, capped: set<Name>, remaining0: int)
    returns (result: Table, remaining: int)
    requires capped <= targets.Keys == result0.Keys
    ensures result.Keys == result0.Keys
    ensures forall k :: k in result ==> result[k] == if k in capped then targets[k] else result0[k]
    ensures remaining == remaining0 - Sum(targets, capped)
  {
    result, remaining := result0, remaining0;
    var todo := capped;
    while todo != {}
      invariant todo <= capped && result.Keys == result0.Keys
      invariant forall k :: k in result ==> result[k] == if k in capped && k !in todo then targets[k] else result0[k]
      invariant remaining == remaining0 - Sum(targets, capped - todo)
      decreases todo
    {
      Inhabited(todo);
      var key :| key in todo;
      SumPick(targets, capped - (todo - {key}), key);
      assert capped - (todo - {key}) - {key} == capped - todo;
      result := result[key := targets[key]];
      remaining := remaining - targets[key];
      todo := todo - {key};
    }
    assert capped - todo == capped;
  }

  /** Taking the first candidate out leaves one winner fewer to find among the rest. */
  lemma WinnersStep(remainders: Table, s: set<Name>, n: nat)
    requires s <= remainders.Keys && 0 < n <= |s|
    ensures var key := First(remainders, s);
            && key in Winners(remainders, s, n) && key !in Winners(remainders, s - {key}, n - 1)
            && forall k :: k != key ==>
                 (k in Winners(remainders, s, n) <==> k in Winners(remainders, s - {key}, n - 1))
  {
  }

  method AddRemainders(result0: Table, remainders: Table, active: set<Name>, spare: nat) returns (result: Table)
    requires active == remainders.Keys <= result0.Keys && spare <= |active|
    ensures result.Keys == result0.Keys
    ensures forall k :: k in result ==>
              result[k] == result0[k] + if k in Winners(remainders, active, spare) then 1 else 0
  {
    result := result0;
    var candidates, won := active, 0;
    ghost var winners := Winners(remainders, active, spare);
    ghost var ahead := winners;
    while won < spare
      invariant 0 <= won <= spare && candidates <= active && |candidates| == |active| - won
      invariant ahead == Winners(remainders, candidates, spare - won) && ahead <= winners
      invariant result.Keys == result0.Keys
      invariant forall k :: k in result ==> result[k] == result0[k] + if k in winners && k !in ahead then 1 else 0
    {
      WinnersStep(remainders, candidates, spare - won);
      var key := First(remainders, candidates);
      result := result[key := result[key] + 1];
      candidates, won := candidates - {key}, won + 1;
      ahead := ahead - {key};
      assert ahead == Winners(remainders, candidates, spare - won);
    }
  }

  lemma SharesAreLastRound(targets: Table, demand: Table, active: set<Name>, remaining: int, r: Table,
                           weights: Table, total: int, q: Table, spare: int)
    requires active <= Positives(targets) && active != {} && 0 < remaining && r.Keys == targets.Keys
    requires weights == Weights(targets, demand, active) && total == Sum(weights, active)
    requires Capped(targets, weights, total, active, remaining) == {}
    requires q == Quotients(weights, total, remaining, active) && spare == remaining - Sum(q, active) && 0 <= spare <= |active|
    requires forall k :: k in r && k !in active ==> r[k] == Max(0, targets[k])
    requires forall k :: k in active ==>
               r[k] == q[k] + if k in Winners(Remainders(weights, total, remaining, active), active, spare) then 1 else 0
    ensures LastRound(targets, demand, active, remaining, r)
  {
  }

  method ShareOut(result0: Table, targets: Table, demand: Table, active: set<Name>, remaining: int) returns (result: Table)
    requires active <= Positives(targets) && active != {} && 0 < remaining && result0.Keys == targets.Keys
    requires forall k :: k in result0 ==> result0[k] == if k in active then 0 else Max(0, targets[k])
    requires var w := Weights(targets, demand, active); Capped(targets, w, Sum(w, active), active, remaining) == {}
    ensures result.Keys == targets.Keys && LastRound(targets, demand, active, remaining, result)
  {
    var weights := Weights(targets, demand, active);
    var total := Sum(weights, active);
    SharesSpare(weights, total, remaining, active);
    var quotients := Quotients(weights, total, remaining, active);
    var spare := remaining - Sum(quotients, active);
    result := AddRemainders(result0 + quotients, Remainders(weights, total, remaining, active), active, spare);
    SharesAreLastRound(targets, demand, active, remaining, result, weights, total, quotients, spare);
  }

  /** Between rounds: settled pools hold their targets, open ones nothing yet. */
  ghost predicate Progress(targets: Table, demand: Table, ceiling: int, open: set<Name>, left: int, result: Table) {
    && 0 <= left && open <= Positives(targets) && result.Keys == targets.Keys
    && (forall k :: k in result ==> result[k] == if k in open then 0 else Max(0, targets[k]))
    && left == Max(0, ceiling) - Sum(targets, Positives(targets) - open)
    && Level(targets, demand, open, left) && Together(targets, demand, open)
  }

  lemma ProgressStep(targets: Table, demand: Table, ceiling: int, open: set<Name>, left: int, result: Table,
                     capped: set<Name>, result': Table)
    requires Progress(targets, demand, ceiling, open, left, result) && open != {} && result'.Keys == result.Keys
    requires var w := Weights(targets, demand, open); capped == Capped(targets, w, Sum(w, open), open, left)
    requires forall k :: k in result' ==> result'[k] == if k in capped then targets[k] else result[k]
    ensures Progress(targets, demand, ceiling, open - capped, left - Sum(targets, capped), result')
  {
    hide Winners, Quotients, Remainders, Together;
    var weights := Weights(targets, demand, open);
    CappedFits(targets, weights, Sum(weights, open), open, left);
    LevelStep(targets, demand, open, left, weights, capped, open - capped, left - Sum(targets, capped));
    TogetherStep(targets, demand, open, left, capped);
    assert (Positives(targets) - open) + capped == Positives(targets) - (open - capped);
    SumUnion(targets, Positives(targets) - open, capped);
  }

  method SettleCapped(targets: Table, demand: Table, ghost ceiling: int, open0: set<Name>, left0: int, result0: Table,
                      capped: set<Name>)
    returns (result: Table, open: set<Name>, left: int)
    requires Progress(targets, demand, ceiling, open0, left0, result0) && open0 != {} && capped != {}
    requires var w := Weights(targets, demand, open0); capped == Capped(targets, w, Sum(w, open0), open0, left0)
    ensures Progress(targets, demand, ceiling, open, left, result) && open < open0
  {
    result, left := CapPools(result0, targets, capped, left0);
    open := open0 - capped;
    ProgressStep(targets, demand, ceiling, open0, left0, result0, capped, result);
  }

  method Rounds(targets: Table, demand: Table, ceiling: int) returns (result: Table, open: set<Name>, left: int)
    ensures 0 <= left && open <= Positives(targets) && result.Keys == targets.Keys
    ensures left == Max(0, ceiling) - Sum(targets, Positives(targets) - open)
    ensures Level(targets, demand, open, left) && LastRound(targets, demand, open, left, result)
    ensures Together(targets, demand, open)
  {
    result := map k | k in targets :: 0;
    left := if ceiling < 0 then 0 else ceiling;
    open := Positives(targets);
    while open != {} && left != 0
      invariant Progress(targets, demand, ceiling, open, left, result)
      decreases open
    {
      var weights := Weights(targets, demand, open);
      var capped := Capped(targets, weights, Sum(weights, open), open, left);
      if capped == {} {
        result := ShareOut(result, targets, demand, open, left);
        return;
      }
      result, open, left := SettleCapped(targets, demand, ceiling, open, left, result, capped);
    }
  }

  lemma LastRoundPromises(targets: Table, demand: Table, ceiling: int, open: set<Name>, left: int, result: Table)
    requires open <= Positives(targets) && 0 <= left && result.Keys == targets.Keys
    requires left == Max(0, ceiling) - Sum(targets, Positives(targets) - open)
    requires Level(targets, demand, open, left) && LastRound(targets, demand, open, left, result)
    ensures Conserves(targets, ceiling, result)
    ensures ServesDemandFirst(targets, demand, result)
    ensures WaterFilled(targets, demand, result)
    ensures SettledBelow(targets, demand, open, result)
  {
    RoundConserves(targets, demand, ceiling, open, left, result);
    forall j, k | j in result && k in result && Demand(demand, j) > 0 && Demand(demand, k) == 0 && result[k] > 0
      ensures result[j] == Max(0, targets[j])
    {
      RoundServesDemandFirst(targets, demand, open, left, result, j, k);
    }
    forall i, j | i in result && j in result && Demand(demand, i) > 0 && Demand(demand, j) > 0 && result[i] < targets[i]
      ensures Fair(result[j], Demand(demand, i), result[i], Demand(demand, j))
    {
      RoundWaterFills(targets, demand, open, left, result, i, j);
    }
    forall i, j | i in result && j in result && j !in open && Demand(demand, i) > 0 && Demand(demand, j) > 0
                  && result[i] < targets[i]
      ensures Fair(result[j] + 1, Demand(demand, i), result[i], Demand(demand, j))
    {
      RoundSettledBelow(targets, demand, open, left, result, i, j);
    }
  }

  lemma LastRoundFillsByTarget(targets: Table, demand: Table, open: set<Name>, left: int, result: Table)
    requires open <= Positives(targets) && 0 <= left && result.Keys == targets.Keys
    requires Together(targets, demand, open) && LastRound(targets, demand, open, left, result)
    ensures FilledByTarget(targets, demand, result)
  {
    hide Together, LastRound, Fair;
    forall i, j | i in result && j in result && Demand(demand, i) == 0 && Demand(demand, j) == 0
                  && targets[j] > 0 && 0 <= result[i] < targets[i]
      ensures Fair(result[j], targets[i], result[i], targets[j])
    {
      RoundFillsByTarget(targets, demand, open, left, result, i, j);
    }
  }

  /** Among the pools of the last round the sharper bound holds for exactly the pairs
      whose remainders and spare slots allow it. */
  ghost predicate SharperExactly(targets: Table, demand: Table, active: set<Name>, remaining: int, r: Table)
    requires r.Keys == targets.Keys && active <= Positives(targets)
  {
    forall i, j :: i in active && j in active && Demand(demand, i) > 0 && Demand(demand, j) > 0
      ==> (Fair(r[j] + 1, Demand(demand, i), r[i], Demand(demand, j))
           <==> SharperInRound(targets, demand, active, remaining, i, j))
  }

  /** How the split came about: some pools settled at their targets, strictly at or
      below the level of the rest, and the rest shared what remained. */
  ghost predicate EndsInRound(targets: Table, demand: Table, ceiling: int, r: Table)
    requires r.Keys == targets.Keys
  {
    exists active :: active <= Positives(targets) && RoundOf(targets, demand, ceiling, active, r)
  }

  ghost predicate RoundOf(targets: Table, demand: Table, ceiling: int, active: set<Name>, r: Table)
    requires r.Keys == targets.Keys && active <= Positives(targets)
  {
    && Sum(targets, Positives(targets) - active) <= Max(0, ceiling)
    && LastRound(targets, demand, active, Max(0, ceiling) - Sum(targets, Positives(targets) - active), r)
    && SettledBelow(targets, demand, active, r)
    && SharperExactly(targets, demand, active, Max(0, ceiling) - Sum(targets, Positives(targets) - active), r)
  }

  lemma LastRoundSharper(targets: Table, demand: Table, active: set<Name>, remaining: int, r: Table)
    requires active <= Positives(targets) && 0 <= remaining && r.Keys == targets.Keys
    requires LastRound(targets, demand, active, remaining, r)
    ensures SharperExactly(targets, demand, active, remaining, r)
  {
    hide LastRound, SharperInRound, Fair;
    forall i, j | i in active && j in active && Demand(demand, i) > 0 && Demand(demand, j) > 0
      ensures Fair(r[j] + 1, Demand(demand, i), r[i], Demand(demand, j))
              <==> SharperInRound(targets, demand, active, remaining, i, j)
    {
      RoundSharperExactly(targets, demand, active, remaining, r, i, j);
    }
  }

  /** r_j / d_j < (r_i + 1) / d_i for every pool j with demand and every such i below
      its target. */
  ghost predicate SharplyFilled(targets: Table, demand: Table, r: Table)
    requires r.Keys == targets.Keys
  {
    forall i, j :: i in r && j in r && Demand(demand, i) > 0 && Demand(demand, j) > 0 && r[i] < targets[i]
      ==> Fair(r[j] + 1, Demand(demand, i), r[i], Demand(demand, j))
  }

  /** What pool k ends with if it is still open in the last round. */
  function RoundShare(targets: Table, demand: Table, active: set<Name>, remaining: int, k: Name): int
    requires active <= Positives(targets) && k in active
  {
    if remaining == 0 then 0
    else
      var weights := Weights(targets, demand, active);
      var total := Sum(weights, active);
      Quotients(weights, total, remaining, active)[k] + Extra(weights, total, remaining, active, k)
  }

  lemma OpenShare(targets: Table, demand: Table, active: set<Name>, remaining: int, r: Table, k: Name)
    requires active <= Positives(targets) && 0 <= remaining && r.Keys == targets.Keys && k in active
    requires LastRound(targets, demand, active, remaining, r)
    ensures r[k] == RoundShare(targets, demand, active, remaining, k)
  {
    hide Winners, Capped;
  }

  /** Every pair of pools still open in the last round, i ending below its target, meets
      the sharper bound as the round's remainders and spare slots have it. */
  ghost predicate RoundAllows(targets: Table, demand: Table, active: set<Name>, remaining: int)
    requires active <= Positives(targets)
  {
    forall i, j :: i in active && j in active && Demand(demand, i) > 0 && Demand(demand, j) > 0
                   && RoundShare(targets, demand, active, remaining, i) < targets[i]
      ==> SharperInRound(targets, demand, active, remaining, i, j)
  }

  lemma SharplyFilledIff(targets: Table, demand: Table, active: set<Name>, remaining: int, r: Table)
    requires active <= Positives(targets) && r.Keys == targets.Keys
    requires SettledBelow(targets, demand, active, r) && SharperExactly(targets, demand, active, remaining, r)
    requires forall k :: k in active ==> r[k] == RoundShare(targets, demand, active, remaining, k)
    requires forall k :: k in r && r[k] < targets[k] ==> k in active
    ensures SharplyFilled(targets, demand, r) <==> RoundAllows(targets, demand, active, remaining)
  {
    hide SharperInRound, Fair, RoundShare, Demand;
  }

  /** The sharper bound holds throughout a split if and only if the remainders and spare
      slots of its last round allow it for every pair of pools still open there. */
  lemma SharperBoundExactly(targets: Table, demand: Table, ceiling: int, active: set<Name>, r: Table)
    requires r.Keys == targets.Keys && active <= Positives(targets)
    requires RoundOf(targets, demand, ceiling, active, r)
    ensures SharplyFilled(targets, demand, r)
            <==> RoundAllows(targets, demand, active, Max(0, ceiling) - Sum(targets, Positives(targets) - active))
  {
    hide LastRound, SharperInRound, RoundShare, SettledBelow, SharperExactly, SharplyFilled, RoundAllows, Sum;
    var remaining := Max(0, ceiling) - Sum(targets, Positives(targets) - active);
    forall k | k in active ensures r[k] == RoundShare(targets, demand, active, remaining, k) {
      OpenShare(targets, demand, active, remaining, r, k);
    }
    BelowTargetIsOpen(targets, demand, active, remaining, r);
    SharplyFilledIff(targets, demand, active, remaining, r);
  }

  lemma BelowTargetIsOpen(targets: Table, demand: Table, active: set<Name>, remaining: int, r: Table)
    requires active <= Positives(targets) && r.Keys == targets.Keys && LastRound(targets, demand, active, remaining, r)
    ensures forall k :: k in r && r[k] < targets[k] ==> k in active
  {
    hide Winners, Capped, Weights, Quotients, Remainders;
  }

  /** Shares the ceiling's slots among the pools. */
  method SplitTargets(targets: Table, demand: Table, ceiling: int) returns (result: Table)
    ensures Conserves(targets, ceiling, result)
    ensures ServesDemandFirst(targets, demand, result)
    ensures WaterFilled(targets, demand, result)
    ensures FilledByTarget(targets, demand, result)
    ensures EndsInRound(targets, demand, ceiling, result)
  {
    hide Conserves, ServesDemandFirst, WaterFilled, FilledByTarget, SettledBelow, LastRound, Level, Together, SharperExactly;
    var open, left;
    result, open, left := Rounds(targets, demand, ceiling);
    LastRoundFillsByTarget(targets, demand, open, left, result);
    LastRoundPromises(targets, demand, ceiling, open, left, result);
    LastRoundSharper(targets, demand, open, left, result);
    assert RoundOf(targets, demand, ceiling, open, result);
  }

  /** The sharper bound does not extend to a target reached by a remainder slot:
      here no allocation at all that conserves the slots can meet it. */
  lemma SharperBoundFails(r: Table)
    requires Conserves(map[1 := 2, 2 := 2], 3, r)
    ensures exists i, j :: i in r && j in r && r[i] < 2 && r[j] == 2
                           && !(r[j] * Demand(map[1 := 1, 2 := 1], i) < (r[i] + 1) * Demand(map[1 := 1, 2 := 1], j))
  {
    var targets := map[1 := 2, 2 := 2];
    assert Positives(targets) == r.Keys == {1, 2};
    TwoKeySum(r);
    TwoKeySum(targets);
    var i, j := if r[1] == 2 then 2 else 1, if r[1] == 2 then 1 else 2;
    assert i in r && j in r && r[i] < 2 && r[j] == 2;
  }

  lemma TwoKeySum(f: Table)
    requires f.Keys == {1, 2}
    ensures Sum(f, {1, 2}) == f[1] + f[2]
  {
    SumPick(f, {1, 2}, 1);
    assert {1, 2} - {1} == {2};
    SumPick(f, {2}, 2);
    assert {2} - {2} == {};
  }
}
