/** Runs of host admission: adapters of several pools take turns deciding, launched
    processes appear late, workers die and launches fizzle, in any order. */
module HostFleet {
  import opened Common
  import opened HostCeiling
  import opened HostAdmission

  /** `live` processes are counted by a probe, `inflight` ones have been launched but
      are not running yet. */
  datatype Fleet = Fleet(live: Table, inflight: Table, reservations: map<Name, Reservation>, clock: real)

  /** One adapter's turn: what `decide` was given for its pool, the pool's workers as
      the adapter itself `seen` them, and how many workers it then launched. */
  datatype Turn = Turn(pool: Name, asked: bool, allocation: int, budget: int, hold: bool,
                       now: real, seen: int, launched: nat)

  datatype Step = Admit(turn: Turn) | Appear(pool: Name) | Die(pool: Name) | Fizzle(pool: Name)

  predicate Shape(f: Fleet) {
    && f.live.Keys == f.inflight.Keys
    && forall k :: k in f.live ==> 0 <= f.live[k] && 0 <= f.inflight[k]
  }

  function Workers(f: Fleet): (w: Table)
    requires f.live.Keys == f.inflight.Keys
    ensures w.Keys == f.live.Keys
  {
    map k | k in f.live :: f.live[k] + f.inflight[k]
  }

  function Total(f: Fleet): int
    requires f.live.Keys == f.inflight.Keys
  {
    Sum(Workers(f), f.live.Keys)
  }

  function Granted(f: Fleet, t: Turn): int
    requires t.pool in f.live
  {
    Grant(f.live, Kept(f.reservations, f.live, t.now), t.pool, t.allocation, t.budget, t.hold)
  }

  predicate Enabled(f: Fleet, s: Step) {
    && f.live.Keys == f.inflight.Keys
    && match s
       case Admit(t) =>
         && t.pool in f.live && f.clock <= t.now
         && (t.launched > 0 ==> t.asked && t.launched <= Granted(f, t) - t.seen)
       case Appear(k) => k in f.live && f.inflight[k] > 0
       case Die(k) => k in f.live && f.live[k] > 0
       case Fizzle(k) => k in f.live && f.inflight[k] > 0
  }

  function Next(f: Fleet, s: Step): Fleet
    requires Enabled(f, s)
  {
    match s
    case Admit(t) =>
      f.(inflight := f.inflight[t.pool := f.inflight[t.pool] + t.launched],
         reservations := AfterGrant(f.live, Kept(f.reservations, f.live, t.now), t.pool, t.asked, Granted(f, t), t.now),
         clock := t.now)
    case Appear(k) => f.(live := f.live[k := f.live[k] + 1], inflight := f.inflight[k := f.inflight[k] - 1])
    case Die(k) => f.(live := f.live[k := f.live[k] - 1])
    case Fizzle(k) => f.(inflight := f.inflight[k := f.inflight[k] - 1])
  }

  predicate Runs(f: Fleet, steps: seq<Step>)
    decreases |steps|, 0
  {
    steps != [] ==>
      Runs(f, steps[..|steps| - 1]) && Enabled(After(f, steps[..|steps| - 1]), steps[|steps| - 1])
  }

  function After(f: Fleet, steps: seq<Step>): Fleet
    requires Runs(f, steps)
    decreases |steps|, 1
  {
    if steps == [] then f else Next(After(f, steps[..|steps| - 1]), steps[|steps| - 1])
  }

  /** Every launch resolves within the freshness window: no reservation has run out
      while its pool still has launches in flight. */
  predicate Timely(f: Fleet, now: real) {
    forall k :: k in f.reservations && k in f.inflight && !Fresh(f.reservations[k].at, now) ==> f.inflight[k] == 0
  }

  /** What the run assumes of a turn: a budget within the host's, launches that
      resolve in time, and an adapter that sees at least the pool's running workers. */
  predicate Sound(f: Fleet, s: Step, limit: int) {
    s.Admit? && s.turn.pool in f.live ==>
      0 <= s.turn.budget <= limit && Timely(f, s.turn.now) && f.live[s.turn.pool] <= s.turn.seen
  }

  predicate SoundRun(f: Fleet, steps: seq<Step>, limit: int)
    requires Runs(f, steps)
  {
    forall i :: 0 <= i < |steps| ==> RunsTo(f, steps, i) && Sound(After(f, steps[..i]), steps[i], limit)
  }

  predicate RunsTo(f: Fleet, steps: seq<Step>, i: nat) {
    i <= |steps| && Runs(f, steps[..i])
  }

  /** A pool with launches in flight has reserved room for all its workers. */
  predicate Covered(f: Fleet, k: Name)
    requires k in f.live && k in f.inflight
  {
    f.inflight[k] > 0 ==> k in f.reservations && f.live[k] + f.inflight[k] <= f.reservations[k].count
  }

  ghost predicate Inv(f: Fleet) {
    Shape(f) && forall k :: k in f.live ==> Covered(f, k)
  }

  /** A decision of `HostState.Decide` is a turn here: the same grant, the same
      reservations left behind. */
  lemma DecisionIsTurn(f: Fleet, requests: map<Name, Request>, after: map<Name, Reservation>, pool: Name, asked: bool,
                       demand: map<Name, Option<nat>>, sample: Sample, d: Decision, t: Turn)
    requires Settled(requests, f.reservations, after, pool, asked, demand, sample, t.now, d)
    requires f.live == sample.counts && f.live.Keys == f.inflight.Keys && f.clock <= t.now
    requires t == Turn(pool, asked, d.allocations[pool], Max(0, d.ceiling - sample.unmanaged),
                       Pressured(sample) || demand[pool].None?, t.now, t.seen, t.launched)
    requires t.launched > 0 ==> asked && t.launched <= d.granted - t.seen
    ensures Enabled(f, Admit(t)) && Granted(f, t) == d.granted
    ensures Next(f, Admit(t)).reservations == after
  {
    hide SplitAsFiled;
  }

  // ---- one turn ----

  /** What a pool occupies in the eyes of `decide` covers its workers. */
  lemma EffectiveCovers(f: Fleet, now: real, k: Name)
    requires Inv(f) && Timely(f, now) && k in f.live
    ensures Workers(f)[k] <= Effective(f.live, Kept(f.reservations, f.live, now))[k]
    ensures f.inflight[k] > 0 ==> k in Kept(f.reservations, f.live, now)
  {
    assert Covered(f, k);
  }

  /** A turn that launches ends inside its budget. */
  lemma LaunchFits(f: Fleet, s: Step, limit: int)
    requires Inv(f) && Enabled(f, s) && Sound(f, s, limit) && s.Admit? && s.turn.launched > 0
    ensures Total(Next(f, s)) <= s.turn.budget
    ensures Covered(Next(f, s), s.turn.pool)
  {
    var t, g := s.turn, Next(f, s);
    var kept := Kept(f.reservations, f.live, t.now);
    var others := f.live.Keys - {t.pool};
    GrantFits(f.live, kept, t.pool, t.allocation, t.budget, t.hold);
    EffectiveCovers(f, t.now, t.pool);
    forall k | k in others ensures Workers(g)[k] <= Effective(f.live, kept)[k] {
      EffectiveCovers(f, t.now, k);
    }
    SumLe(Workers(g), Effective(f.live, kept), others);
    SumPick(Workers(g), f.live.Keys, t.pool);
  }

  lemma OthersStayCovered(f: Fleet, s: Step, limit: int, k: Name)
    requires Inv(f) && Enabled(f, s) && Sound(f, s, limit) && k in f.live
    requires s.Admit? ==> k != s.turn.pool || s.turn.launched == 0
    ensures Covered(Next(f, s), k)
  {
    assert Covered(f, k);
    if s.Admit? {
      EffectiveCovers(f, s.turn.now, k);
    }
  }

  /** Every step keeps every pool covered. */
  lemma StepKeepsInv(f: Fleet, s: Step, limit: int)
    requires Inv(f) && Enabled(f, s) && Sound(f, s, limit)
    ensures Inv(Next(f, s))
  {
    var g := Next(f, s);
    forall k | k in g.live ensures Covered(g, k) {
      if s.Admit? && k == s.turn.pool && s.turn.launched > 0 {
        LaunchFits(f, s, limit);
      } else {
        OthersStayCovered(f, s, limit, k);
      }
    }
  }

  /** No step takes the total past the larger of the limit and what it was. */
  lemma StepTotal(f: Fleet, s: Step, limit: int)
    requires Inv(f) && Enabled(f, s) && Sound(f, s, limit)
    ensures Total(Next(f, s)) <= Max(limit, Total(f))
  {
    if s.Admit? && s.turn.launched > 0 {
      LaunchFits(f, s, limit);
    } else {
      assert Next(f, s).live.Keys == f.live.Keys;
      SumLe(Workers(Next(f, s)), Workers(f), f.live.Keys);
    }
  }

  lemma {:induction false} RunKeepsInv(f: Fleet, steps: seq<Step>, limit: int)
    requires Inv(f) && Runs(f, steps) && SoundRun(f, steps, limit)
    ensures Inv(After(f, steps)) && Total(After(f, steps)) <= Max(limit, Total(f))
  {
    if steps != [] {
      var n := |steps| - 1;
      SoundPrefix(f, steps, limit);
      RunKeepsInv(f, steps[..n], limit);
      StepKeepsInv(After(f, steps[..n]), steps[n], limit);
      StepTotal(After(f, steps[..n]), steps[n], limit);
    }
  }

  lemma SoundPrefix(f: Fleet, steps: seq<Step>, limit: int)
    requires Runs(f, steps) && steps != [] && SoundRun(f, steps, limit)
    ensures var n := |steps| - 1;
            Runs(f, steps[..n]) && SoundRun(f, steps[..n], limit) && Sound(After(f, steps[..n]), steps[n], limit)
  {
    var n := |steps| - 1;
    forall i | 0 <= i < n
      ensures RunsTo(f, steps[..n], i) && Sound(After(f, steps[..n][..i]), steps[..n][i], limit)
    {
      assert RunsTo(f, steps, i);
      assert steps[..n][..i] == steps[..i];
    }
    assert RunsTo(f, steps, n);
  }

  /** However the pools' turns, appearances, deaths and failed launches interleave,
      running and in-flight workers together stay within the limit if they start
      there, and otherwise never grow. */
  lemma FleetStaysInBudget(f: Fleet, steps: seq<Step>, limit: int)
    requires Inv(f) && Runs(f, steps) && SoundRun(f, steps, limit)
    ensures Total(f) <= limit ==> Total(After(f, steps)) <= limit
    ensures limit < Total(f) ==> Total(After(f, steps)) <= Total(f)
  {
    RunKeepsInv(f, steps, limit);
  }

  // ---- what the assumptions on a turn are for ----

  /** An adapter launches what its own count leaves of the grant: the reservation
      covers the pool exactly when that count misses no running worker. */
  lemma ReservationCoversExactlyWhenAdapterSeesAll(f: Fleet, t: Turn)
    requires Inv(f) && t.pool in f.live && Timely(f, t.now) && 0 <= t.budget
    requires t.asked && f.live[t.pool] < Granted(f, t) && t.launched > 0 && t.launched == Granted(f, t) - t.seen
    requires Enabled(f, Admit(t))
    ensures Covered(Next(f, Admit(t)), t.pool) <==> f.live[t.pool] <= t.seen
  {
    EffectiveCovers(f, t.now, t.pool);
    GrantFits(f.live, Kept(f.reservations, f.live, t.now), t.pool, t.allocation, t.budget, t.hold);
  }

  /** The least case: one worker runs, the adapter sees none, and launches both workers
      of its grant of two on top of it. */
  lemma BlindAdapterOvershoots(f: Fleet, t: Turn)
    requires f == Fleet(map[1 := 1], map[1 := 0], map[], 0.0) && t == Turn(1, true, 2, 2, false, 0.0, 0, 2)
    ensures Inv(f) && Timely(f, t.now) && Enabled(f, Admit(t)) && f.live[1] < Granted(f, t) == t.launched - t.seen
    ensures !Covered(Next(f, Admit(t)), 1) && Total(Next(f, Admit(t))) == t.budget + 1
  {
    SumPick(Effective(f.live, map[]), {1}, 1);
    assert {1} - {1} == {};
    assert Kept(f.reservations, f.live, 0.0) == map[];
    var g := Next(f, Admit(t));
    assert g.live.Keys == {1} && Workers(g)[1] == 3;
    SumPick(Workers(g), {1}, 1);
  }

  /** Pool k's launches in flight are still inside their reservation's window. */
  predicate InTime(f: Fleet, now: real, k: Name)
    requires k in f.inflight
  {
    f.inflight[k] > 0 ==> k in f.reservations && Fresh(f.reservations[k].at, now)
  }

  /** Either k's launches are in time, or it is k's own turn and the new grant has room
      for the old launches beside the new ones. */
  predicate TurnCovers(f: Fleet, t: Turn, k: Name)
    requires k in f.live && k in f.inflight && t.pool in f.live
  {
    || InTime(f, t.now, k)
    || (k == t.pool && t.asked && f.live[k] < Granted(f, t) && f.live[k] + f.inflight[k] + t.launched <= Granted(f, t))
  }

  /** A turn leaves a pool covered exactly when its launches in flight are in time or its
      own new grant covers them; so a turn keeps the invariant exactly when that holds
      of every pool. */
  lemma TurnKeepsCoverExactly(f: Fleet, t: Turn)
    requires Inv(f) && Enabled(f, Admit(t)) && f.live[t.pool] <= t.seen
    ensures forall k :: k in f.live ==> (Covered(Next(f, Admit(t)), k) <==> TurnCovers(f, t, k))
    ensures Inv(Next(f, Admit(t))) <==> forall k :: k in f.live ==> TurnCovers(f, t, k)
  {
    forall k | k in f.live ensures Covered(Next(f, Admit(t)), k) <==> TurnCovers(f, t, k) {
      if k == t.pool {
        OwnCoverExactly(f, t);
      } else {
        OtherCoverExactly(f, t, k);
      }
    }
    hide Covered, TurnCovers;
  }

  /** Another pool's turn leaves k covered exactly when k's launches are in time. */
  lemma OtherCoverExactly(f: Fleet, t: Turn, k: Name)
    requires Inv(f) && Enabled(f, Admit(t)) && k in f.live && k != t.pool
    ensures Covered(Next(f, Admit(t)), k) <==> InTime(f, t.now, k)
  {
    assert Covered(f, k);
    hide Granted;
  }

  lemma OwnCoverExactly(f: Fleet, t: Turn)
    requires Inv(f) && Enabled(f, Admit(t)) && f.live[t.pool] <= t.seen
    ensures Covered(Next(f, Admit(t)), t.pool) <==> TurnCovers(f, t, t.pool)
  {
    assert Covered(f, t.pool);
    HeldWhileReserved(f, t);
    hide Granted;
  }

  /** While a pool's own reservation lasts, its turn launches nothing. */
  lemma HeldWhileReserved(f: Fleet, t: Turn)
    requires f.live.Keys == f.inflight.Keys && t.pool in f.live
    ensures t.pool in Kept(f.reservations, f.live, t.now) ==> Granted(f, t) <= f.live[t.pool]
  {
  }

  /** The least case: one slot, one launch, still in flight after 900 seconds. The next
      turn does not cover it, and a second worker is launched into the one slot. */
  lemma LateLaunchOvershoots(f: Fleet, first: Step, second: Step)
    requires f == Fleet(map[1 := 0], map[1 := 0], map[], 0.0)
    requires first == Admit(Turn(1, true, 1, 1, false, 0.0, 0, 1))
    requires second == Admit(Turn(1, true, 1, 1, false, 901.0, 0, 1))
    ensures Inv(f) && Enabled(f, first) && Sound(f, first, 1)
    ensures Inv(Next(f, first)) && Enabled(Next(f, first), second) && !InTime(Next(f, first), 901.0, 1)
    ensures !TurnCovers(Next(f, first), second.turn, 1) && !Inv(Next(Next(f, first), second))
    ensures Total(Next(Next(f, first), second)) == 2
  {
    var g := Next(f, first);
    assert Sum(Effective(f.live, map[]), {}) == 0;
    assert f.live.Keys - {1} == {};
    assert g.inflight[1] == 1 && g.reservations[1] == Reservation(1, 0.0);
    assert Kept(g.reservations, g.live, 901.0) == map[];
    StepKeepsInv(f, first, 1);
    TurnKeepsCoverExactly(g, second.turn);
    var h := Next(g, second);
    SumPick(Workers(h), h.live.Keys, 1);
    assert h.live.Keys - {1} == {};
  }
}
