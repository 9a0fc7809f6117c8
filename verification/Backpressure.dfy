/** apply_backpressure of src/controller.rs: a brake with hysteresis on provider
    pressure, applied to a decision already made. */
module Backpressure {
  import opened Common

  datatype Mode = Normal | Hold | StepDown

  /** Thresholds on the fraction of rejected requests. */
  datatype Policy = Policy(recoverBelow: real, holdAbove: real, stepDownAbove: real, quietCycles: nat, releaseSeconds: nat)
  {
    predicate Valid() { recoverBelow < holdAbove < stepDownAbove && 0 < quietCycles }
  }

  datatype State = State(mode: Mode, quiet: nat, lastUsableAt: Option<int>)

  const RESTING: State := State(Normal, 0, None)

  /** What one cycle observes: the fraction, if the sample is fresh and has one, when
      it was taken and what time it is now, in seconds. */
  datatype Reading = Reading(fraction: Option<real>, observedAt: int, now: int)

  // ---- the mode ----

  function Counted(policy: Policy, s: State, fraction: real, calmer: Mode): State {
    if fraction < policy.recoverBelow then
      if policy.quietCycles <= s.quiet + 1 then s.(mode := calmer, quiet := 0) else s.(quiet := s.quiet + 1)
    else s.(quiet := 0)
  }

  function Judged(policy: Policy, s: State, fraction: real): State {
    match s.mode
    case Normal => s.(mode := if policy.holdAbove < fraction then Hold else Normal, quiet := 0)
    case Hold => if policy.stepDownAbove < fraction then s.(mode := StepDown, quiet := 0) else Counted(policy, s, fraction, Normal)
    case StepDown => Counted(policy, s, fraction, Hold)
  }

  /** The signal has been missing for as long as the policy tolerates. */
  predicate SignalLost(policy: Policy, s: State, r: Reading) {
    r.fraction.None? && !s.mode.Normal?
    && (s.lastUsableAt.None? || policy.releaseSeconds <= Max(0, r.now - s.lastUsableAt.value))
  }

  function NextState(policy: Policy, s: State, r: Reading): State {
    if r.fraction.Some? then Judged(policy, s, r.fraction.value).(lastUsableAt := Some(r.observedAt))
    else if SignalLost(policy, s, r) then RESTING
    else s
  }

  function Cap(mode: Mode, desired: nat, current: nat, minWorkers: nat): nat {
    match mode
    case Normal => desired
    case Hold => Max(current, minWorkers)
    case StepDown => Max(SatSub(current, 1), minWorkers)
  }

  /** Under the cap a decision never grows while holding, and while stepping down loses a
      worker at least, unless that would fall below the fleet's floor; a decision that asks
      for less is left alone, and so is every one while normal. */
  lemma CapBrakes(mode: Mode, desired: nat, current: nat, minWorkers: nat)
    ensures var d := Min(desired, Cap(mode, desired, current, minWorkers));
            && (mode.Normal? ==> d == desired)
            && (mode.Hold? && minWorkers <= current ==> d <= current && (desired <= current ==> d == desired)
                                                        && (current < desired ==> d == current))
            && (mode.StepDown? && minWorkers < current ==> d < current && (desired < current ==> d == desired)
                                                           && (current <= desired ==> d + 1 == current))
            && (!mode.Normal? && current <= minWorkers ==> d == Min(desired, minWorkers))
  {
  }

  /** A pool's decision while the brake is applied to it. */
  class PoolDecision {
    const current: U32
    const unowned: U32
    var desired: U32
    var desiredTotal: Option<U32>
    var braked: bool
    var released: bool

    constructor (current: U32, desired: U32, unowned: U32, desiredTotal: Option<U32>)
      ensures this.current == current && this.desired == desired && this.unowned == unowned
      ensures this.desiredTotal == desiredTotal && !braked && !released
    {
      this.current, this.desired, this.unowned, this.desiredTotal := current, desired, unowned, desiredTotal;
      braked, released := false, false;
    }

    /** Never raises the decision, and keeps the pool's total in step with it. */
    method ApplyBackpressure(policy: Policy, prior: State, r: Reading, minWorkers: U32) returns (s: State)
      modifies this
      ensures s == NextState(policy, prior, r)
      ensures desired == Min(old(desired), Cap(s.mode, old(desired), current, minWorkers))
      ensures desired <= old(desired)
      ensures desiredTotal == if unowned > 0 then Some(SatAdd(desired, unowned)) else old(desiredTotal)
      ensures braked <==> desired < old(desired)
      ensures released <==> SignalLost(policy, prior, r)
    {
      s, released := prior, false;
      if r.fraction.Some? {
        var fraction := r.fraction.value;
        s := s.(lastUsableAt := Some(r.observedAt));
        match s.mode {
          case Normal =>
            if policy.holdAbove < fraction {
              s := s.(mode := Hold);
            }
            s := s.(quiet := 0);
          case Hold =>
            if policy.stepDownAbove < fraction {
              s := s.(mode := StepDown, quiet := 0);
            } else if fraction < policy.recoverBelow {
              s := s.(quiet := s.quiet + 1);
              if policy.quietCycles <= s.quiet {
                s := s.(mode := Normal, quiet := 0);
              }
            } else {
              s := s.(quiet := 0);
            }
          case StepDown =>
            if fraction < policy.recoverBelow {
              s := s.(quiet := s.quiet + 1);
              if policy.quietCycles <= s.quiet {
                s := s.(mode := Hold, quiet := 0);
              }
            } else {
              s := s.(quiet := 0);
            }
        }
      } else if s.mode != Normal {
        if s.lastUsableAt.None? || policy.releaseSeconds <= Max(0, r.now - s.lastUsableAt.value) {
          s, released := RESTING, true;
        }
      }
      var cap := Cap(s.mode, desired, current, minWorkers);
      var before := desired;
      desired := if before <= cap then before else cap;
      if unowned > 0 {
        desiredTotal := Some(SatAdd(desired, unowned));
      }
      braked := desired < before;
    }
  }

  // ---- runs ----

  function After(policy: Policy, s: State, run: seq<Reading>): State {
    if run == [] then s else NextState(policy, After(policy, s, run[..|run| - 1]), run[|run| - 1])
  }

  /** No cycle of the run released the brake for want of a signal. */
  predicate NeverLost(policy: Policy, s: State, run: seq<Reading>) {
    run == []
    || (NeverLost(policy, s, run[..|run| - 1]) && !SignalLost(policy, After(policy, s, run[..|run| - 1]), run[|run| - 1]))
  }

  predicate IsQuiet(policy: Policy, r: Reading) {
    r.fraction.Some? && r.fraction.value < policy.recoverBelow
  }

  function QuietReadings(policy: Policy, run: seq<Reading>): nat {
    if run == [] then 0
    else QuietReadings(policy, run[..|run| - 1]) + if IsQuiet(policy, run[|run| - 1]) then 1 else 0
  }

  /** The last n readings that could be used were all quiet. */
  predicate EndsQuiet(policy: Policy, run: seq<Reading>, n: nat) {
    n == 0
    || (run != []
        && if run[|run| - 1].fraction.None? then EndsQuiet(policy, run[..|run| - 1], n)
           else IsQuiet(policy, run[|run| - 1]) && EndsQuiet(policy, run[..|run| - 1], n - 1))
  }

  /** Quiet readings still needed before the brake is off. */
  function Needed(policy: Policy, s: State): int {
    match s.mode
    case Normal => 0
    case Hold => policy.quietCycles - s.quiet
    case StepDown => 2 * policy.quietCycles - s.quiet
  }

  /** The stored count stays below the policy's, and is not kept while normal. */
  predicate Sound(policy: Policy, s: State) {
    s.quiet < policy.quietCycles && (s.mode.Normal? ==> s.quiet == 0)
  }

  lemma StepNeeds(policy: Policy, s: State, r: Reading)
    requires policy.Valid() && Sound(policy, s)
    ensures Sound(policy, NextState(policy, s, r))
    ensures !SignalLost(policy, s, r) ==>
              Needed(policy, s) - (if IsQuiet(policy, r) then 1 else 0) <= Needed(policy, NextState(policy, s, r))
  {
  }

  /** Every run keeps the count below the policy's. */
  lemma {:induction false} RunStaysSound(policy: Policy, s: State, run: seq<Reading>)
    requires policy.Valid() && Sound(policy, s)
    ensures Sound(policy, After(policy, s, run))
  {
    if run != [] {
      RunStaysSound(policy, s, run[..|run| - 1]);
      StepNeeds(policy, After(policy, s, run[..|run| - 1]), run[|run| - 1]);
    }
  }

  /** Without a signal-loss release, each unit of recovery takes one quiet reading. */
  lemma {:induction false} RunNeeds(policy: Policy, s: State, run: seq<Reading>)
    requires policy.Valid() && Sound(policy, s) && NeverLost(policy, s, run)
    ensures Needed(policy, s) - QuietReadings(policy, run) <= Needed(policy, After(policy, s, run))
  {
    if run != [] {
      RunNeeds(policy, s, run[..|run| - 1]);
      RunStaysSound(policy, s, run[..|run| - 1]);
      StepNeeds(policy, After(policy, s, run[..|run| - 1]), run[|run| - 1]);
    }
  }

  /** From the moment a run steps down, at least twice the policy's count of quiet
      readings pass before it is back to normal. */
  lemma StepDownRecoversSlowly(policy: Policy, s: State, run: seq<Reading>)
    requires policy.Valid() && s.mode.StepDown? && s.quiet == 0 && NeverLost(policy, s, run)
    requires After(policy, s, run).mode.Normal?
    ensures 2 * policy.quietCycles <= QuietReadings(policy, run)
  {
    RunNeeds(policy, s, run);
  }

  /** The stored count is of consecutive quiet readings, the latest usable ones. */
  lemma {:induction false} CountedReadingsAreLatest(policy: Policy, s: State, run: seq<Reading>)
    requires policy.Valid() && s.quiet == 0 && NeverLost(policy, s, run)
    ensures EndsQuiet(policy, run, After(policy, s, run).quiet)
  {
    if run != [] {
      CountedReadingsAreLatest(policy, s, run[..|run| - 1]);
    }
  }

  /** The brake comes off only right after the policy's count of quiet readings in a row. */
  lemma ReleaseFollowsQuiet(policy: Policy, s: State, run: seq<Reading>)
    requires policy.Valid() && Sound(policy, s) && s.quiet == 0 && NeverLost(policy, s, run) && run != []
    requires !After(policy, s, run[..|run| - 1]).mode.Normal? && After(policy, s, run).mode.Normal?
    ensures EndsQuiet(policy, run, policy.quietCycles)
  {
    CountedReadingsAreLatest(policy, s, run[..|run| - 1]);
    RunStaysSound(policy, s, run[..|run| - 1]);
  }

  /** One reading never takes a normal pool straight to stepping down, and the next
      worse mode is entered exactly on a fraction above its threshold. */
  lemma OneModeAtATime(policy: Policy, s: State, r: Reading)
    requires policy.Valid() && Sound(policy, s)
    ensures var t := NextState(policy, s, r);
            && (s.mode.Normal? ==> !t.mode.StepDown?)
            && (s.mode.Normal? && t.mode.Hold? <==> s.mode.Normal? && r.fraction.Some? && policy.holdAbove < r.fraction.value)
            && (s.mode.Hold? && t.mode.StepDown? <==> s.mode.Hold? && r.fraction.Some? && policy.stepDownAbove < r.fraction.value)
            && (s.mode.StepDown? && t.mode.Normal? ==> SignalLost(policy, s, r))
  {
  }
}
