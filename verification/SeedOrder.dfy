/** seed_order of scripts/subgov_ready_beads.py: in which order ready workspaces are
    handed to new workers, each time to the least occupied one. */
module SeedOrder {
  import opened Common

  // ---- what is running where ----

  /** One entry of `running`: the workspace its path resolves to, and its workers. */
  datatype Entry = Entry(route: Name, count: nat)

  /** The occupancy table; of several entries for one workspace the last one stands. */
  function Occupancy(running: seq<Entry>): (m: map<Name, nat>) {
    if running == [] then map[]
    else
      var last := running[|running| - 1];
      Occupancy(running[..|running| - 1])[last.route := last.count]
  }

  function Occupied(occupancy: map<Name, nat>, route: Name): nat {
    if route in occupancy then occupancy[route] else 0
  }

  function WorkersOn(running: seq<Entry>, route: Name): nat {
    if running == [] then 0
    else
      var last := running[|running| - 1];
      WorkersOn(running[..|running| - 1], route) + if last.route == route then last.count else 0
  }

  /** The entries of a workspace before its last one are all empty. */
  predicate OneSpelling(running: seq<Entry>, route: Name) {
    forall i, j :: 0 <= i < j < |running| && running[i].route == running[j].route == route ==> running[i].count == 0
  }

  lemma {:induction false} NoWorkersOn(running: seq<Entry>, route: Name)
    ensures WorkersOn(running, route) == 0 <==> forall i :: 0 <= i < |running| && running[i].route == route ==> running[i].count == 0
  {
    if running != [] {
      NoWorkersOn(running[..|running| - 1], route);
    }
  }

  lemma LastSpelling(running: seq<Entry>, route: Name)
    requires running != []
    ensures var n := |running| - 1;
            OneSpelling(running, route) <==>
              if running[n].route == route
              then forall i :: 0 <= i < n && running[i].route == route ==> running[i].count == 0
              else OneSpelling(running[..n], route)
  {
    var n := |running| - 1;
    if running[n].route == route {
      if OneSpelling(running, route) {
        forall i | 0 <= i < n && running[i].route == route ensures running[i].count == 0 {
        }
      }
    } else {
      assert forall i :: 0 <= i < n ==> running[..n][i] == running[i];
    }
  }

  /** The table counts all of a workspace's workers exactly when no earlier entry
      under another spelling of its path held any. */
  lemma {:induction false} OccupancyCountsAllExactly(running: seq<Entry>, route: Name)
    ensures Occupied(Occupancy(running), route) <= WorkersOn(running, route)
    ensures Occupied(Occupancy(running), route) == WorkersOn(running, route) <==> OneSpelling(running, route)
  {
    if running != [] {
      var n := |running| - 1;
      OccupancyCountsAllExactly(running[..n], route);
      NoWorkersOn(running[..n], route);
      LastSpelling(running, route);
    }
  }

  /** The least case: two spellings of one path, and the worker under the first is hidden. */
  lemma SecondSpellingHides(running: seq<Entry>)
    requires running == [Entry(1, 1), Entry(1, 0)]
    ensures !OneSpelling(running, 1) && WorkersOn(running, 1) == 1 && Occupied(Occupancy(running), 1) == 0
  {
    var first := [Entry(1, 1)];
    assert running[..1] == first && first[..0] == [];
    assert WorkersOn(first, 1) == 1 && WorkersOn(running, 1) == 1;
    assert Occupancy(running) == Occupancy(first)[1 := 0];
    assert running[0].route == running[1].route == 1;
  }

  // ---- the order ----

  /** How occupied a workspace is once the given seeds have been placed. */
  function Level(occupancy: map<Name, nat>, seeds: seq<Name>, route: Name): nat {
    Occupied(occupancy, route) + multiset(seeds)[route]
  }

  predicate HasReady(jobs: seq<Name>, seeds: seq<Name>, route: Name) {
    multiset(seeds)[route] < multiset(jobs)[route]
  }

  /** The next seed has a ready entry left, and no workspace with one is less
      occupied, or as occupied with a smaller path. */
  ghost predicate PickedNext(jobs: seq<Name>, occupancy: map<Name, nat>, seeds: seq<Name>, pick: Name) {
    && HasReady(jobs, seeds, pick)
    && forall r :: HasReady(jobs, seeds, r) ==> Before(occupancy, seeds, pick, r)
  }

  predicate Before(occupancy: map<Name, nat>, seeds: seq<Name>, a: Name, b: Name) {
    var la, lb := Level(occupancy, seeds, a), Level(occupancy, seeds, b);
    la < lb || (la == lb && a <= b)
  }

  ghost predicate Ordered(jobs: seq<Name>, occupancy: map<Name, nat>, seeds: seq<Name>) {
    forall i :: 0 <= i < |seeds| ==> PickedNext(jobs, occupancy, seeds[..i], seeds[i])
  }

  /** The workspaces with ready entries left, from which the next seed is chosen. */
  method PickLeast(remaining: map<Name, nat>, occupancy: map<Name, nat>) returns (pick: Name)
    requires exists r :: r in remaining && remaining[r] > 0
    ensures pick in remaining && remaining[pick] > 0
    ensures forall r :: r in remaining && remaining[r] > 0 ==>
              Occupied(occupancy, pick) < Occupied(occupancy, r)
              || (Occupied(occupancy, pick) == Occupied(occupancy, r) && pick <= r)
  {
    var todo := set r | r in remaining && remaining[r] > 0;
    ghost var all := todo;
    ghost var ready :| ready in remaining && remaining[ready] > 0;
    assert ready in todo;
    Inhabited(todo);
    var some :| some in todo;
    pick := some;
    while todo != {}
      invariant todo <= all && pick in all
      invariant forall r :: r in all && r !in todo ==>
                  Occupied(occupancy, pick) < Occupied(occupancy, r)
                  || (Occupied(occupancy, pick) == Occupied(occupancy, r) && pick <= r)
      decreases todo
    {
      Inhabited(todo);
      var r :| r in todo;
      if Occupied(occupancy, r) < Occupied(occupancy, pick)
         || (Occupied(occupancy, r) == Occupied(occupancy, pick) && r <= pick) {
        pick := r;
      }
      todo := todo - {r};
    }
  }

  /** The loop's tables agree with the seeds handed out so far. */
  ghost predicate Tracks(jobs: seq<Name>, occupancy0: map<Name, nat>, seeds: seq<Name>,
                         remaining: map<Name, nat>, occupancy: map<Name, nat>)
  {
    && (forall r :: r in remaining <==> r in multiset(jobs))
    && (forall r :: r in remaining ==> remaining[r] + multiset(seeds)[r] == multiset(jobs)[r])
    && (forall r :: Occupied(occupancy, r) == Level(occupancy0, seeds, r))
    && multiset(seeds) <= multiset(jobs)
  }

  method CountReady(jobs: seq<Name>) returns (remaining: map<Name, nat>)
    ensures forall r :: r in remaining <==> r in multiset(jobs)
    ensures forall r :: r in remaining ==> remaining[r] == multiset(jobs)[r]
  {
    remaining := map[];
    var n := 0;
    while n < |jobs|
      invariant n <= |jobs|
      invariant forall r :: r in remaining <==> r in multiset(jobs[..n])
      invariant forall r :: r in remaining ==> remaining[r] == multiset(jobs[..n])[r]
    {
      assert jobs[..n + 1] == jobs[..n] + [jobs[n]];
      var route := jobs[n];
      remaining := remaining[route := 1 + if route in remaining then remaining[route] else 0];
      n := n + 1;
    }
    assert jobs[..n] == jobs;
  }

  lemma SomethingLeft(jobs: seq<Name>, seeds: seq<Name>) returns (r: Name)
    requires multiset(seeds) <= multiset(jobs) && |seeds| < |jobs|
    ensures r in multiset(jobs) && HasReady(jobs, seeds, r)
  {
    if forall r :: multiset(jobs)[r] <= multiset(seeds)[r] {
      FewerMeansShorter(jobs, seeds);
    }
    r :| multiset(seeds)[r] < multiset(jobs)[r];
  }

  lemma Included(a: multiset<Name>, b: multiset<Name>)
    requires forall r: Name :: a[r] <= b[r]
    ensures a <= b && |a| <= |b|
  {
    assert forall r :: r in a ==> r in b;
    forall r | r in a ensures a[r] <= b[r] {
    }
    assert a <= b;
    assert a + (b - a) == b;
  }

  lemma FewerMeansShorter(xs: seq<Name>, ys: seq<Name>)
    requires forall r :: multiset(xs)[r] <= multiset(ys)[r]
    ensures |xs| <= |ys|
  {
    Included(multiset(xs), multiset(ys));
  }

  lemma TrackPick(jobs: seq<Name>, occupancy0: map<Name, nat>, seeds: seq<Name>,
                  remaining: map<Name, nat>, occupancy: map<Name, nat>, pick: Name)
    requires Tracks(jobs, occupancy0, seeds, remaining, occupancy) && pick in remaining && remaining[pick] > 0
    ensures Tracks(jobs, occupancy0, seeds + [pick], remaining[pick := remaining[pick] - 1],
                   occupancy[pick := Occupied(occupancy, pick) + 1])
  {
    var longer := seeds + [pick];
    CountSnoc(seeds, pick);
    var fewer: map<Name, nat> := remaining[pick := remaining[pick] - 1];
    var more: map<Name, nat> := occupancy[pick := Occupied(occupancy, pick) + 1];
    forall r ensures Occupied(more, r) == Level(occupancy0, longer, r) {
      assert Occupied(occupancy, r) == Level(occupancy0, seeds, r);
    }
    forall r | r in fewer ensures fewer[r] + multiset(longer)[r] == multiset(jobs)[r] {
      assert remaining[r] + multiset(seeds)[r] == multiset(jobs)[r];
    }
    forall r ensures multiset(longer)[r] <= multiset(jobs)[r] {
      if r !in fewer {
        assert multiset(longer)[r] == multiset(seeds)[r];
      }
    }
    Included(multiset(longer), multiset(jobs));
  }

  lemma CountSnoc(seeds: seq<Name>, pick: Name)
    ensures forall r :: multiset(seeds + [pick])[r] == multiset(seeds)[r] + if r == pick then 1 else 0
  {
  }

  method SeedOrder(jobs: seq<Name>, running: seq<Entry>) returns (seeds: seq<Name>)
    ensures |seeds| == |jobs| && Ordered(jobs, Occupancy(running), seeds)
  {
    hide Occupancy;
    var remaining: map<Name, nat> := CountReady(jobs);
    var occupancy: map<Name, nat> := Occupancy(running);
    ghost var start: map<Name, nat> := occupancy;
    seeds := [];
    var n := 0;
    while n < |jobs|
      invariant n <= |jobs| && |seeds| == n
      invariant Tracks(jobs, start, seeds, remaining, occupancy)
      invariant Ordered(jobs, start, seeds)
    {
      var left := SomethingLeft(jobs, seeds);
      assert left in remaining && remaining[left] > 0;
      var route := PickLeast(remaining, occupancy);
      OrderedSnoc(jobs, start, seeds, remaining, occupancy, route);
      TrackPick(jobs, start, seeds, remaining, occupancy, route);
      hide Tracks, Ordered;
      seeds := seeds + [route];
      occupancy := occupancy[route := Occupied(occupancy, route) + 1];
      remaining := remaining[route := remaining[route] - 1];
      n := n + 1;
    }
  }

  lemma OrderedSnoc(jobs: seq<Name>, start: map<Name, nat>, seeds: seq<Name>,
                    remaining: map<Name, nat>, occupancy: map<Name, nat>, pick: Name)
    requires Tracks(jobs, start, seeds, remaining, occupancy) && Ordered(jobs, start, seeds)
    requires pick in remaining && remaining[pick] > 0
    requires forall r :: r in remaining && remaining[r] > 0 ==>
               Occupied(occupancy, pick) < Occupied(occupancy, r)
               || (Occupied(occupancy, pick) == Occupied(occupancy, r) && pick <= r)
    ensures Ordered(jobs, start, seeds + [pick])
  {
    assert PickedNext(jobs, start, seeds, pick) by {
      forall r | HasReady(jobs, seeds, r) ensures Before(start, seeds, pick, r) {
        assert r in multiset(jobs);
        assert r in remaining;
      }
    }
    var longer := seeds + [pick];
    forall i | 0 <= i < |longer| ensures PickedNext(jobs, start, longer[..i], longer[i]) {
      if i < |seeds| {
        assert longer[..i] == seeds[..i];
      } else {
        assert longer[..i] == seeds;
      }
    }
  }

  // ---- what the order promises ----

  lemma FitsSnoc(jobs: seq<Name>, seeds: seq<Name>, n: nat)
    requires n == |seeds| - 1 && multiset(seeds[..n]) <= multiset(jobs) && HasReady(jobs, seeds[..n], seeds[n])
    ensures multiset(seeds) <= multiset(jobs)
  {
    assert seeds == seeds[..n] + [seeds[n]];
    CountSnoc(seeds[..n], seeds[n]);
  }

  lemma {:induction false} OrderedFits(jobs: seq<Name>, occupancy: map<Name, nat>, seeds: seq<Name>)
    requires Ordered(jobs, occupancy, seeds)
    ensures multiset(seeds) <= multiset(jobs)
  {
    if seeds != [] {
      var n := |seeds| - 1;
      assert PickedNext(jobs, occupancy, seeds[..n], seeds[n]);
      assert HasReady(jobs, seeds[..n], seeds[n]);
      OrderedPrefix(jobs, occupancy, seeds, n);
      hide *;
      OrderedFits(jobs, occupancy, seeds[..n]);
      FitsSnoc(jobs, seeds, n);
    }
  }

  lemma OrderedPrefix(jobs: seq<Name>, occupancy: map<Name, nat>, seeds: seq<Name>, k: nat)
    requires Ordered(jobs, occupancy, seeds) && k <= |seeds|
    ensures Ordered(jobs, occupancy, seeds[..k])
  {
    forall i | 0 <= i < k ensures PickedNext(jobs, occupancy, seeds[..k][..i], seeds[..k][i]) {
      assert seeds[..k][..i] == seeds[..i];
    }
  }

  /** The full output is a permutation of the jobs' workspaces. */
  lemma SeedsArePermutation(jobs: seq<Name>, occupancy: map<Name, nat>, seeds: seq<Name>)
    requires Ordered(jobs, occupancy, seeds) && |seeds| == |jobs|
    ensures multiset(seeds) == multiset(jobs)
  {
    OrderedFits(jobs, occupancy, seeds);
    var rest := multiset(jobs) - multiset(seeds);
    assert multiset(seeds) + rest == multiset(jobs);
  }

  /** How occupied the workspace of seed i is when it is picked. */
  function LevelAtPick(occupancy: map<Name, nat>, seeds: seq<Name>, i: nat): nat
    requires i < |seeds|
  {
    Level(occupancy, seeds[..i], seeds[i])
  }

  lemma NextPickNoLower(jobs: seq<Name>, occupancy: map<Name, nat>, seeds: seq<Name>, i: nat)
    requires Ordered(jobs, occupancy, seeds) && i + 1 < |seeds|
    ensures LevelAtPick(occupancy, seeds, i) <= LevelAtPick(occupancy, seeds, i + 1)
  {
    assert seeds[..i + 1] == seeds[..i] + [seeds[i]];
    assert PickedNext(jobs, occupancy, seeds[..i], seeds[i]);
    assert PickedNext(jobs, occupancy, seeds[..i + 1], seeds[i + 1]);
    assert HasReady(jobs, seeds[..i], seeds[i + 1]);
    assert Before(occupancy, seeds[..i], seeds[i], seeds[i + 1]);
  }

  /** Occupancies at pick never decrease. */
  lemma {:induction false} LevelsNeverDecrease(jobs: seq<Name>, occupancy: map<Name, nat>, seeds: seq<Name>, i: nat, j: nat)
    requires Ordered(jobs, occupancy, seeds) && i <= j < |seeds|
    ensures LevelAtPick(occupancy, seeds, i) <= LevelAtPick(occupancy, seeds, j)
  {
    hide Ordered, LevelAtPick;
    if i < j {
      LevelsNeverDecrease(jobs, occupancy, seeds, i, j - 1);
      NextPickNoLower(jobs, occupancy, seeds, j - 1);
    }
  }

  /** The last time a seeded workspace was picked. */
  lemma {:induction false} LastPickOf(seeds: seq<Name>, route: Name) returns (i: nat)
    requires route in seeds
    ensures i < |seeds| && seeds[i] == route && multiset(seeds)[route] == multiset(seeds[..i])[route] + 1
  {
    var n := |seeds| - 1;
    assert seeds == seeds[..n] + [seeds[n]];
    if seeds[n] == route {
      i := n;
    } else {
      i := LastPickOf(seeds[..n], route);
      assert seeds[..n][..i] == seeds[..i];
    }
  }

  /** Every seeded workspace ends no higher than one above the last pick's level. */
  lemma PrefixPeak(jobs: seq<Name>, occupancy: map<Name, nat>, seeds: seq<Name>, route: Name)
    requires Ordered(jobs, occupancy, seeds) && route in seeds
    ensures Level(occupancy, seeds, route) <= LevelAtPick(occupancy, seeds, |seeds| - 1) + 1
  {
    var i := LastPickOf(seeds, route);
    LevelsNeverDecrease(jobs, occupancy, seeds, i, |seeds| - 1);
  }

  /** Any other placement of as many workers puts some workspace that high. */
  lemma OtherPeak(jobs: seq<Name>, occupancy: map<Name, nat>, seeds: seq<Name>, other: seq<Name>) returns (b: Name)
    requires Ordered(jobs, occupancy, seeds) && seeds != []
    requires multiset(other) <= multiset(jobs) && |other| == |seeds|
    ensures b in other && LevelAtPick(occupancy, seeds, |seeds| - 1) + 1 <= Level(occupancy, other, b)
  {
    var n := |seeds| - 1;
    var prior, pick := seeds[..n], seeds[n];
    var peak := Level(occupancy, prior, pick);
    assert PickedNext(jobs, occupancy, prior, pick);
    if forall r :: r in other ==> Level(occupancy, other, r) <= peak {
      OrderedPrefix(jobs, occupancy, seeds, n);
      OrderedFits(jobs, occupancy, prior);
      forall r ensures multiset(other)[r] <= multiset(prior)[r] {
        if r in other && HasReady(jobs, prior, r) {
          assert Before(occupancy, prior, pick, r);
        }
      }
      FewerMeansShorter(other, prior);
    }
    b :| b in other && peak < Level(occupancy, other, b);
  }

  /** For every k the first k seeds minimise the largest resulting occupancy of a
      seeded workspace, over all ways to place k workers within the ready counts. */
  lemma EveryPrefixIsOptimal(jobs: seq<Name>, occupancy: map<Name, nat>, seeds: seq<Name>, k: nat, other: seq<Name>)
    requires Ordered(jobs, occupancy, seeds) && 0 < k <= |seeds|
    requires multiset(other) <= multiset(jobs) && |other| == k
    ensures exists b :: b in other
                        && forall a :: a in seeds[..k] ==> Level(occupancy, seeds[..k], a) <= Level(occupancy, other, b)
  {
    OrderedPrefix(jobs, occupancy, seeds, k);
    var b := OtherPeak(jobs, occupancy, seeds[..k], other);
    forall a | a in seeds[..k] ensures Level(occupancy, seeds[..k], a) <= Level(occupancy, other, b) {
      PrefixPeak(jobs, occupancy, seeds[..k], a);
    }
  }
}
