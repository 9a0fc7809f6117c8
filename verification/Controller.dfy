/** evaluate, evaluate_pool and into_elastic of src/controller.rs with banked resets
    off: how many workers an account's quota windows, backlog and fleet bounds allow.
    Times are milliseconds. */
module Controller {
  import opened Common

  datatype Strategy = CeilingOnly | LinearToReset

  /** A window's resolved policy; `rolling` when it measures burn over its own history. */
  datatype Policy = Policy(target: real, strategy: Strategy, rolling: bool)

  datatype Override = Override(enabled: bool, target: Option<real>, strategy: Option<Strategy>, rolling: bool)

  datatype StaleBehavior = HoldWorkers | MinWorkers

  datatype FleetConfig = FleetConfig(minWorkers: U32, maxWorkers: U32, bootstrap: U32, maxUp: U32, maxDown: U32)

  datatype Config = Config(fleet: FleetConfig, staleAfter: nat, staleBehavior: StaleBehavior, minimumSample: nat,
                           target: real, strategy: Strategy, windows: map<Name, Override>)
  {
    predicate Valid() { fleet.minWorkers <= fleet.maxWorkers }
  }

  datatype Window = Window(id: Name, used: real, reached: bool, resetsAt: int)

  datatype Snapshot = Snapshot(observedAt: int, isFresh: bool, windows: seq<Window>, backlog: Option<U32>)

  datatype PriorSample = PriorSample(observedAt: int, used: real, resetsAt: int, workers: U32)

  /** The account's state: the last sample of each window, and the burn rate its
      rolling history yields, if any. */
  datatype Prior = Prior(samples: map<Name, PriorSample>, rolling: map<Name, real>)

  datatype Reason = TargetReached | ResetDue | BelowCeiling | PacedToReset | NoObservedBurn | Bootstrap | Learning

  datatype WindowDecision = WindowDecision(id: Name, desired: U32, reason: Reason)

  datatype Decision = Decision(current: U32, desired: U32, stale: bool, windows: seq<WindowDecision>,
                               binding: Option<Name>, unowned: U32, desiredTotal: Option<U32>)

  // ---- arithmetic ----

  function Clamp(x: int, lo: int, hi: int): int { if x < lo then lo else if x > hi then hi else x }

  /** Whole seconds of a duration, toward zero. */
  function Seconds(ms: int): int { if ms >= 0 then ms / 1000 else -(-ms / 1000) }

  function Age(observedAt: int, now: int): nat { Max(0, Seconds(now - observedAt)) }

  predicate SameGeneration(a: int, b: int) { -60 <= Seconds(a - b) <= 60 }

  const TOLERANCE: real := 0.000000001

  /** The nearest integer, halves away from zero. */
  function Round(x: real): int { if x >= 0.0 then (x + 0.5).Floor else -(-x + 0.5).Floor }

  function Ceil(x: real): int { -(-x).Floor }

  /** A ratio as a whole count, up unless it is a whole number already. */
  function WholeCount(ratio: real): U32 {
    var rounded := Round(ratio);
    Clamp(if -TOLERANCE < ratio - rounded as real < TOLERANCE then rounded else Ceil(ratio), 0, U32_MAX)
  }

  function WorkersForRate(required: real, perWorker: real): U32
    requires perWorker > 0.0
  {
    WholeCount(required / perWorker)
  }

  lemma WholeCountIsLeast(ratio: real)
    requires 0.0 <= ratio
    ensures var n := WholeCount(ratio);
            (n < U32_MAX ==> ratio < n as real + 0.000000001) && (0 < n ==> (n - 1) as real + 0.000000001 <= ratio)
  {
    var rounded, up := Round(ratio), Ceil(ratio);
    assert rounded as real - 0.5 <= ratio && 0 <= rounded;
    assert ratio <= up as real && up as real - 1.0 < ratio && 0 <= up;
  }

  /** The least number of workers whose joint rate, with a billionth of a worker more,
      exceeds the required one. */
  lemma WorkersForRateIsLeast(required: real, perWorker: real, fewer: nat)
    requires perWorker > 0.0 && required >= 0.0
    ensures var n := WorkersForRate(required, perWorker);
            && (n < U32_MAX ==> required < (n as real + 0.000000001) * perWorker)
            && (fewer < n ==> (fewer as real + 0.000000001) * perWorker <= required)
  {
    hide WholeCount;
    var ratio := required / perWorker;
    var n := WorkersForRate(required, perWorker);
    RateOf(0.0, ratio, perWorker, required);
    WholeCountIsLeast(ratio);
    RateOf(n as real + 0.000000001, ratio, perWorker, required);
    RateOf(fewer as real + 0.000000001, ratio, perWorker, required);
    if fewer < n {
      assert fewer as real <= (n - 1) as real;
      assert fewer as real + 0.000000001 <= ratio;
    }
  }

  /** Comparing a count with the ratio is comparing its joint rate with the required one. */
  lemma RateOf(count: real, ratio: real, perWorker: real, required: real)
    requires perWorker > 0.0 && ratio == required / perWorker
    ensures count < ratio <==> count * perWorker < required
    ensures ratio < count <==> required < count * perWorker
  {
    assert ratio * perWorker == required;
    assert (ratio - count) * perWorker == required - count * perWorker;
    SignOfRate(ratio - count, perWorker);
    assert (count - ratio) * perWorker == count * perWorker - required;
    SignOfRate(count - ratio, perWorker);
  }

  lemma SignOfRate(x: real, p: real)
    requires p > 0.0
    ensures x * p > 0.0 <==> x > 0.0
  {
  }

  // ---- one window ----

  function PolicyFor(config: Config, id: Name): Option<Policy> {
    if id !in config.windows then Some(Policy(config.target, config.strategy, false))
    else
      var o := config.windows[id];
      if !o.enabled then None
      else Some(Policy(if o.target.Some? then o.target.value else config.target,
                       if o.strategy.Some? then o.strategy.value else config.strategy, o.rolling))
  }

  /** The burn per worker and hour between two samples; equal or censored readings
      yield no rate rather than a rate of zero. */
  function TwoPointBurn(sample: PriorSample, w: Window, observedAt: int): (r: Option<real>)
    ensures r.Some? ==> r.value > 0.0
  {
    var hours := (observedAt - sample.observedAt) as real / 3600000.0;
    if hours == 0.0 || sample.workers == 0 then None
    else
      var rate := (w.used - sample.used) / hours / sample.workers as real;
      if rate > 0.0 then Some(rate) else None
  }

  predicate UsableSample(config: Config, policy: Policy, sample: PriorSample, w: Window, observedAt: int) {
    && SameGeneration(sample.resetsAt, w.resetsAt)
    && (policy.rolling || config.minimumSample <= Seconds(observedAt - sample.observedAt))
    && sample.used <= w.used
    && sample.workers > 0
  }

  function Burn(policy: Policy, prior: Prior, sample: PriorSample, w: Window, observedAt: int): (r: Option<real>)
    ensures r.Some? ==> r.value > 0.0
  {
    if !policy.rolling then TwoPointBurn(sample, w, observedAt)
    else if w.id in prior.rolling && prior.rolling[w.id] > 0.0 then Some(prior.rolling[w.id])
    else None
  }

  function WindowWish(config: Config, policy: Policy, observedAt: int, prior: Prior, current: U32, now: int, w: Window)
    : (U32, Reason)
  {
    if w.reached || policy.target <= w.used then (config.fleet.minWorkers, TargetReached)
    else if w.resetsAt <= now then (current, ResetDue)
    else if policy.strategy.CeilingOnly? then (config.fleet.maxWorkers, BelowCeiling)
    else if w.id in prior.samples && UsableSample(config, policy, prior.samples[w.id], w, observedAt) then
      var burn := Burn(policy, prior, prior.samples[w.id], w, observedAt);
      if burn.None? then (current, NoObservedBurn)
      else
        var hours := (w.resetsAt - now) as real / 3600000.0;
        (WorkersForRate((policy.target - w.used) / hours, burn.value), PacedToReset)
    else if current == 0 then (config.fleet.bootstrap, Bootstrap)
    else (current, Learning)
  }

  function DecideWindow(config: Config, observedAt: int, prior: Prior, current: U32, now: int, w: Window)
    : seq<WindowDecision>
    requires config.Valid()
  {
    var policy := PolicyFor(config, w.id);
    if policy.None? then []
    else
      var wish := WindowWish(config, policy.value, observedAt, prior, current, now, w);
      [WindowDecision(w.id, Clamp(wish.0, config.fleet.minWorkers, config.fleet.maxWorkers), wish.1)]
  }

  function DecideWindows(config: Config, observedAt: int, prior: Prior, current: U32, now: int, ws: seq<Window>)
    : seq<WindowDecision>
    requires config.Valid()
  {
    if ws == [] then []
    else
      DecideWindows(config, observedAt, prior, current, now, ws[..|ws| - 1])
      + DecideWindow(config, observedAt, prior, current, now, ws[|ws| - 1])
  }

  // ---- what one window asks for, in its own figures ----

  /** The policy of a window: its override, field by field, over the account's own. */
  predicate InForce(config: Config, id: Name, p: Policy) {
    if id !in config.windows then p.target == config.target && p.strategy == config.strategy && !p.rolling
    else
      var o := config.windows[id];
      && o.enabled && p.rolling == o.rolling
      && p.target == (match o.target case Some(target) => target case None => config.target)
      && p.strategy == (match o.strategy case Some(strategy) => strategy case None => config.strategy)
  }

  /** The window has reached its limit or its target. */
  predicate Spent(p: Policy, w: Window) { w.reached || w.used >= p.target }

  /** It is neither spent nor due, and is to be paced. */
  predicate Paceable(p: Policy, now: int, w: Window) { !Spent(p, w) && now < w.resetsAt && p.strategy.LinearToReset? }

  /** The earlier sample to measure from: within a minute's tolerance of the same reset,
      old enough unless the window keeps its own history, usage not fallen, and with
      workers to attribute it to. */
  predicate Remembered(config: Config, p: Policy, prior: Prior, observedAt: int, w: Window) {
    w.id in prior.samples
    && var s := prior.samples[w.id];
       && -61000 < s.resetsAt - w.resetsAt < 61000
       && (p.rolling || 1000 * config.minimumSample <= observedAt - s.observedAt
           || (config.minimumSample == 0 && -1000 < observedAt - s.observedAt))
       && s.used <= w.used && 0 < s.workers
  }

  /** Each worker burned b of the window an hour, b > 0. */
  predicate Burned(p: Policy, prior: Prior, observedAt: int, w: Window, b: real)
    requires w.id in prior.samples
  {
    && 0.0 < b
    && if p.rolling then w.id in prior.rolling && prior.rolling[w.id] == b
       else
         var s := prior.samples[w.id];
         observedAt != s.observedAt
         && b * s.workers as real * ((observedAt - s.observedAt) as real / 3600000.0) == w.used - s.used
  }

  /** No burn was measured: nothing was used, or no time passed, or the history has no rate. */
  predicate Unmeasured(p: Policy, prior: Prior, observedAt: int, w: Window)
    requires w.id in prior.samples
  {
    if p.rolling then w.id !in prior.rolling || prior.rolling[w.id] <= 0.0
    else observedAt <= prior.samples[w.id].observedAt || w.used == prior.samples[w.id].used
  }

  /** c workers burning b an hour each, with a billionth of a worker more, use up more than
      is left of the target by the reset, and one fewer would not, as far as the bounds allow. */
  predicate UsesUp(f: FleetConfig, p: Policy, now: int, w: Window, b: real, c: int) {
    var left, hours := p.target - w.used, (w.resetsAt - now) as real / 3600000.0;
    && (c < f.maxWorkers ==> left < (c as real + 0.000000001) * b * hours)
    && (f.minWorkers < c ==> ((c - 1) as real + 0.000000001) * b * hours <= left)
  }

  function Within(f: FleetConfig, x: int): int { Max(f.minWorkers, Min(f.maxWorkers, x)) }

  lemma PolicyIsInForce(config: Config, id: Name, p: Policy)
    ensures PolicyFor(config, id) == Some(p) <==> InForce(config, id, p)
  {
  }

  lemma RememberedIsUsable(config: Config, p: Policy, prior: Prior, observedAt: int, w: Window)
    ensures w.id in prior.samples && UsableSample(config, p, prior.samples[w.id], w, observedAt)
            <==> Remembered(config, p, prior, observedAt, w)
  {
  }

  lemma BurnedIsBurn(p: Policy, prior: Prior, observedAt: int, w: Window, b: real)
    requires w.id in prior.samples && Burned(p, prior, observedAt, w, b) && 0 < prior.samples[w.id].workers
    ensures Burn(p, prior, prior.samples[w.id], w, observedAt) == Some(b)
  {
    var s := prior.samples[w.id];
    if !p.rolling {
      var hours := (observedAt - s.observedAt) as real / 3600000.0;
      assert hours != 0.0;
      IsQuotient(w.used - s.used, hours, b * s.workers as real);
      IsQuotient(b * s.workers as real, s.workers as real, b);
    }
  }

  lemma IsQuotient(a: real, b: real, q: real)
    requires b != 0.0 && q * b == a
    ensures a / b == q
  {
    var d := a / b;
    assert d * b == a;
    assert (d - q) * b == d * b - q * b;
    if d < q {
      SignOfRate(q - d, if 0.0 < b then b else -b);
    } else if q < d {
      SignOfRate(d - q, if 0.0 < b then b else -b);
    }
  }

  lemma UnmeasuredIsNone(p: Policy, prior: Prior, observedAt: int, w: Window)
    requires w.id in prior.samples && Unmeasured(p, prior, observedAt, w)
    requires 0 < prior.samples[w.id].workers && prior.samples[w.id].used <= w.used
    ensures Burn(p, prior, prior.samples[w.id], w, observedAt).None?
  {
    var s := prior.samples[w.id];
    if !p.rolling && observedAt != s.observedAt {
      var hours := (observedAt - s.observedAt) as real / 3600000.0;
      SignOfQuotient(w.used - s.used, hours);
      SignOfQuotient((w.used - s.used) / hours, s.workers as real);
    }
  }

  lemma SignOfQuotient(a: real, b: real)
    requires b != 0.0
    ensures a == 0.0 ==> a / b == 0.0
    ensures 0.0 < b && 0.0 >= a ==> a / b <= 0.0
    ensures b < 0.0 && 0.0 <= a ==> a / b <= 0.0
  {
    var q := a / b;
    assert q * b == a;
    if 0.0 < q {
      SignOfRate(q, if 0.0 < b then b else -b);
      assert q * -b == -a;
    }
  }

  /** A paced window's count, within the fleet's bounds, is the least that uses the target up. */
  lemma PacedCount(f: FleetConfig, p: Policy, now: int, w: Window, b: real, n: U32, c: int)
    requires f.minWorkers <= f.maxWorkers && 0.0 < b && Paceable(p, now, w)
    requires n == WorkersForRate((p.target - w.used) / ((w.resetsAt - now) as real / 3600000.0), b) && c == Within(f, n)
    ensures UsesUp(f, p, now, w, b, c)
  {
    hide WorkersForRate;
    var left, hours := p.target - w.used, (w.resetsAt - now) as real / 3600000.0;
    var required := left / hours;
    assert required * hours == left;
    SignOfQuotient(-left, hours);
    assert required == -(-left / hours);
    WorkersForRateIsLeast(required, b, if 0 < c then c - 1 else 0);
    if c < f.maxWorkers {
      WorkersForRateIsLeast(required, b, 0);
      AtLeastRate(required, (n as real + 0.000000001) * b, (c as real + 0.000000001) * b, b, n, c);
      ScaleRate(required, (c as real + 0.000000001) * b, hours);
    }
    if f.minWorkers < c {
      assert c <= n;
      ScaleRate(((c - 1) as real + 0.000000001) * b, required, hours);
    }
  }

  lemma AtLeastRate(required: real, few: real, many: real, b: real, n: int, c: int)
    requires 0.0 < b && n <= c && required < few
    requires few == (n as real + 0.000000001) * b && many == (c as real + 0.000000001) * b
    ensures required < many
  {
    assert many - few == (c - n) as real * b;
    SignOfRate((c - n) as real, b);
  }

  /** Rates compare as what they use up in the same time. */
  lemma ScaleRate(x: real, y: real, hours: real)
    requires 0.0 < hours
    ensures x <= y <==> x * hours <= y * hours
    ensures x < y <==> x * hours < y * hours
  {
    SignOfRate(y - x, hours);
    SignOfRate(x - y, hours);
    assert (y - x) * hours == y * hours - x * hours;
    assert (x - y) * hours == x * hours - y * hours;
  }

  /** What a window of this policy asks for: its floor when it is spent; the present size
      when its reset is due; the ceiling when it is not paced; the least count that uses
      its target up when its burn is known; otherwise the present size, or the bootstrap
      count when there is no sample and no worker. Always within the fleet's bounds. */
  lemma WindowAsks(config: Config, observedAt: int, prior: Prior, current: U32, now: int, w: Window, p: Policy)
    requires config.Valid() && InForce(config, w.id, p)
    ensures var ds, f := DecideWindow(config, observedAt, prior, current, now, w), config.fleet;
            && |ds| == 1 && ds[0].id == w.id && f.minWorkers <= ds[0].desired <= f.maxWorkers
            && (Spent(p, w) ==> ds[0].desired == f.minWorkers)
            && (!Spent(p, w) && w.resetsAt <= now ==> ds[0].desired == Within(f, current))
            && (!Spent(p, w) && now < w.resetsAt && p.strategy.CeilingOnly? ==> ds[0].desired == f.maxWorkers)
            && (Paceable(p, now, w) && !Remembered(config, p, prior, observedAt, w) ==>
                  ds[0].desired == Within(f, if current == 0 then f.bootstrap else current))
            && (Paceable(p, now, w) && Remembered(config, p, prior, observedAt, w) ==>
                  && (Unmeasured(p, prior, observedAt, w) ==> ds[0].desired == Within(f, current))
                  && forall b :: Burned(p, prior, observedAt, w, b) ==> UsesUp(f, p, now, w, b, ds[0].desired))
  {
    PolicyIsInForce(config, w.id, p);
    RememberedIsUsable(config, p, prior, observedAt, w);
    hide InForce, PolicyFor, UsableSample, Remembered, Burn, Burned, Unmeasured, UsesUp, WorkersForRate;
    if Paceable(p, now, w) && Remembered(config, p, prior, observedAt, w) {
      RememberedSample(config, p, prior, observedAt, w);
      if Unmeasured(p, prior, observedAt, w) {
        UnmeasuredIsNone(p, prior, observedAt, w);
      }
      var c := DecideWindow(config, observedAt, prior, current, now, w)[0].desired;
      forall b | Burned(p, prior, observedAt, w, b) ensures UsesUp(config.fleet, p, now, w, b, c) {
        BurnedIsBurn(p, prior, observedAt, w, b);
        BurnedIsPositive(p, prior, observedAt, w, b);
        PacedCount(config.fleet, p, now, w, b,
                   WorkersForRate((p.target - w.used) / ((w.resetsAt - now) as real / 3600000.0), b), c);
      }
    }
  }

  lemma RememberedSample(config: Config, p: Policy, prior: Prior, observedAt: int, w: Window)
    requires Remembered(config, p, prior, observedAt, w)
    ensures w.id in prior.samples && 0 < prior.samples[w.id].workers && prior.samples[w.id].used <= w.used
  {
  }

  lemma BurnedIsPositive(p: Policy, prior: Prior, observedAt: int, w: Window, b: real)
    requires w.id in prior.samples && Burned(p, prior, observedAt, w, b)
    ensures 0.0 < b
  {
  }

  /** A window that is switched off asks for nothing. */
  lemma DisabledWindowIsSilent(config: Config, observedAt: int, prior: Prior, current: U32, now: int, w: Window)
    requires config.Valid()
    ensures DecideWindow(config, observedAt, prior, current, now, w) == []
            <==> w.id in config.windows && !config.windows[w.id].enabled
  {
  }

  // ---- arbitration ----

  /** The first of the decisions that want the fewest workers. */
  function Binding(ds: seq<WindowDecision>): WindowDecision
    requires ds != []
  {
    var last := ds[|ds| - 1];
    if |ds| == 1 then last
    else var b := Binding(ds[..|ds| - 1]); if last.desired < b.desired then last else b
  }

  lemma {:induction false} BindingIsFirstLeast(ds: seq<WindowDecision>) returns (n: nat)
    requires ds != []
    ensures n < |ds| && Binding(ds) == ds[n]
    ensures forall i :: 0 <= i < |ds| ==> ds[n].desired <= ds[i].desired
    ensures forall i :: 0 <= i < n ==> ds[n].desired < ds[i].desired
  {
    if |ds| == 1 {
      n := 0;
    } else {
      n := BindingIsFirstLeast(ds[..|ds| - 1]);
      if ds[|ds| - 1].desired < Binding(ds[..|ds| - 1]).desired {
        n := |ds| - 1;
      }
    }
  }

  function ApplyStepLimits(desired: U32, current: U32, fleet: FleetConfig): U32
    requires fleet.minWorkers <= fleet.maxWorkers
  {
    var bounded := Clamp(desired, fleet.minWorkers, fleet.maxWorkers);
    var stepped := if bounded > current then Min(bounded, SatAdd(current, fleet.maxUp))
                   else Max(bounded, SatSub(current, fleet.maxDown));
    Clamp(stepped, fleet.minWorkers, fleet.maxWorkers)
  }

  function Bound(raw: U32, current: U32, config: Config, backlog: Option<U32>): U32
    requires config.Valid()
  {
    var cap := if backlog.Some? then backlog.value else U32_MAX;
    Min(ApplyStepLimits(Min(raw, cap), current, config.fleet), Max(current, cap))
  }

  predicate Stale(config: Config, snapshot: Snapshot, now: int) {
    !snapshot.isFresh || Age(snapshot.observedAt, now) > config.staleAfter
  }

  /** What `evaluate` computes. */
  function Evaluation(config: Config, snapshot: Snapshot, prior: Prior, current: U32, now: int): Result<Decision, string>
    requires config.Valid()
  {
    if Stale(config, snapshot, now) then
      var raw := if config.staleBehavior.HoldWorkers? then current else config.fleet.minWorkers;
      Ok(Decision(current, Min(ApplyStepLimits(raw, current, config.fleet), current), true, [], None, 0, None))
    else
      var ds := DecideWindows(config, snapshot.observedAt, prior, current, now, snapshot.windows);
      if ds == [] then Err("no enabled quota windows were observed")
      else
        Ok(Decision(current, Bound(Binding(ds).desired, current, config, snapshot.backlog), false, ds,
                    Some(Binding(ds).id), 0, None))
  }

  lemma BindingOfSnoc(ds: seq<WindowDecision>, d: WindowDecision)
    ensures Binding(ds + [d]) == if ds == [] || d.desired < Binding(ds).desired then d else Binding(ds)
  {
    assert (ds + [d])[..|ds|] == ds;
  }

  lemma AtMostOneDecision(config: Config, observedAt: int, prior: Prior, current: U32, now: int, w: Window)
    requires config.Valid()
    ensures var ds := DecideWindow(config, observedAt, prior, current, now, w); ds == [] || ds == [ds[0]]
  {
  }

  method DecideAll(config: Config, observedAt: int, prior: Prior, current: U32, now: int, windows: seq<Window>)
    returns (decisions: seq<WindowDecision>, binding: Option<WindowDecision>)
    requires config.Valid()
    ensures decisions == DecideWindows(config, observedAt, prior, current, now, windows)
    ensures decisions == [] <==> binding.None?
    ensures decisions != [] ==> binding == Some(Binding(decisions))
  {
    hide DecideWindow, Binding;
    decisions, binding := [], None;
    var n := 0;
    while n < |windows|
      invariant n <= |windows|
      invariant decisions == DecideWindows(config, observedAt, prior, current, now, windows[..n])
      invariant decisions == [] <==> binding.None?
      invariant decisions != [] ==> binding == Some(Binding(decisions))
    {
      assert windows[..n + 1][..n] == windows[..n];
      var decision := DecideWindow(config, observedAt, prior, current, now, windows[n]);
      AtMostOneDecision(config, observedAt, prior, current, now, windows[n]);
      if decision != [] {
        BindingOfSnoc(decisions, decision[0]);
        if binding.None? || decision[0].desired < binding.value.desired {
          binding := Some(decision[0]);
        }
        decisions := decisions + [decision[0]];
      }
      n := n + 1;
    }
    assert windows[..n] == windows;
  }

  method Evaluate(config: Config, snapshot: Snapshot, prior: Prior, current: U32, now: int)
    returns (r: Result<Decision, string>)
    requires config.Valid()
    ensures r == Evaluation(config, snapshot, prior, current, now)
  {
    hide DecideWindows, Binding, ApplyStepLimits;
    var fleet := config.fleet;
    if Stale(config, snapshot, now) {
      var raw := if config.staleBehavior.HoldWorkers? then current else fleet.minWorkers;
      return Ok(Decision(current, Min(ApplyStepLimits(raw, current, fleet), current), true, [], None, 0, None));
    }
    var decisions, binding := DecideAll(config, snapshot.observedAt, prior, current, now, snapshot.windows);
    if binding.None? {
      return Err("no enabled quota windows were observed");
    }
    var cap: U32 := if snapshot.backlog.Some? then snapshot.backlog.value else U32_MAX;
    var raw: U32 := Min(binding.value.desired, cap);
    var desired: U32 := Min(ApplyStepLimits(raw, current, fleet), Max(current, cap));
    r := Ok(Decision(current, desired, false, decisions, Some(binding.value.id), 0, None));
  }

  // ---- the elastic tier ----

  function IntoElastic(d: Decision, unowned: U32): Decision {
    if unowned == 0 then d
    else d.(desiredTotal := Some(d.desired), unowned := unowned,
            current := SatSub(d.current, unowned), desired := SatSub(d.desired, unowned))
  }

  function Pooled(config: Config, unowned: U32): (c: Config)
    requires config.Valid()
    ensures c.Valid()
  {
    config.(fleet := config.fleet.(minWorkers := SatAdd(config.fleet.minWorkers, unowned),
                                   maxWorkers := SatAdd(config.fleet.maxWorkers, unowned)))
  }

  function EvaluatePool(config: Config, snapshot: Snapshot, prior: Prior, owned: U32, unowned: U32, now: int)
    : Result<Decision, string>
    requires config.Valid()
  {
    if unowned == 0 then Evaluation(config, snapshot, prior, owned, now)
    else
      match Evaluation(Pooled(config, unowned), snapshot, prior, SatAdd(owned, unowned), now)
      case Err(e) => Err(e)
      case Ok(d) => Ok(IntoElastic(d, unowned))
  }

  // ---- what a decision is ----

  /** As far from `current` toward a goal as one step may go. */
  predicate StepsToward(f: FleetConfig, current: int, goal: int, d: int) {
    && (goal <= current ==> d == Max(goal, current - f.maxDown))
    && (current <= goal ==> d == Min(goal, current + f.maxUp))
  }

  lemma LimitsStepToward(f: FleetConfig, raw: U32, current: U32)
    requires f.minWorkers <= current <= f.maxWorkers
    ensures StepsToward(f, current, Within(f, raw), ApplyStepLimits(raw, current, f))
  {
  }

  /** On stale data nothing grows: the present size is held, or the floor approached. */
  lemma StaleDecision(config: Config, snapshot: Snapshot, prior: Prior, current: U32, now: int)
    requires config.Valid() && config.fleet.minWorkers <= current <= config.fleet.maxWorkers
    requires !snapshot.isFresh || 1000 * (config.staleAfter + 1) <= now - snapshot.observedAt
    ensures var r := Evaluation(config, snapshot, prior, current, now);
            && r.Ok? && r.value.stale
            && (config.staleBehavior.HoldWorkers? ==> r.value.desired == current)
            && (config.staleBehavior.MinWorkers? ==> StepsToward(config.fleet, current, config.fleet.minWorkers, r.value.desired))
  {
  }

  predicate Fresh(config: Config, snapshot: Snapshot, now: int) {
    snapshot.isFresh && now - snapshot.observedAt < 1000 * (config.staleAfter + 1)
  }

  /** What fresh data is decided on: the first of the windows that ask for the fewest,
      no more than the backlog, and no fewer than the floor. */
  lemma FreshDecision(config: Config, snapshot: Snapshot, prior: Prior, current: U32, now: int) returns (n: nat)
    requires config.Valid() && Fresh(config, snapshot, now)
    requires var r := Evaluation(config, snapshot, prior, current, now); r.Ok?
    ensures var d, f := Evaluation(config, snapshot, prior, current, now).value, config.fleet;
            && !d.stale && d.windows == DecideWindows(config, snapshot.observedAt, prior, current, now, snapshot.windows)
            && n < |d.windows| && d.binding == Some(d.windows[n].id)
            && (forall i :: 0 <= i < |d.windows| ==> d.windows[n].desired <= d.windows[i].desired)
            && (forall i :: 0 <= i < n ==> d.windows[n].desired < d.windows[i].desired)
            && (f.minWorkers <= current <= f.maxWorkers ==>
                  var least := d.windows[n].desired;
                  var wanted := match snapshot.backlog case Some(work) => Min(least, work) case None => least;
                  StepsToward(f, current, Within(f, wanted), d.desired))
  {
    hide DecideWindows, Binding;
    n := BindingIsFirstLeast(DecideWindows(config, snapshot.observedAt, prior, current, now, snapshot.windows));
  }

  lemma {:induction false} WindowIsDecided(config: Config, observedAt: int, prior: Prior, current: U32, now: int,
                                           ws: seq<Window>, i: nat)
    requires config.Valid() && i < |ws|
    ensures forall d :: d in DecideWindow(config, observedAt, prior, current, now, ws[i]) ==>
              d in DecideWindows(config, observedAt, prior, current, now, ws)
    ensures forall d :: d in DecideWindows(config, observedAt, prior, current, now, ws) ==> config.fleet.minWorkers <= d.desired
  {
    hide WindowWish, PolicyFor;
    var n := |ws| - 1;
    if i < n {
      WindowIsDecided(config, observedAt, prior, current, now, ws[..n], i);
    } else if n > 0 {
      WindowIsDecided(config, observedAt, prior, current, now, ws[..n], 0);
    }
  }

  /** Fresh data decides nothing exactly when every window is switched off. */
  lemma {:induction false} UndecidedExactly(config: Config, observedAt: int, prior: Prior, current: U32, now: int, ws: seq<Window>)
    requires config.Valid()
    ensures DecideWindows(config, observedAt, prior, current, now, ws) == []
            <==> forall i :: 0 <= i < |ws| ==> ws[i].id in config.windows && !config.windows[ws[i].id].enabled
  {
    if ws != [] {
      var n := |ws| - 1;
      UndecidedExactly(config, observedAt, prior, current, now, ws[..n]);
      DisabledWindowIsSilent(config, observedAt, prior, current, now, ws[n]);
      hide DecideWindow;
    }
  }

  /** One spent window in a fresh snapshot takes the fleet as far toward its floor as the
      down-step allows, whatever the others ask for. */
  lemma SpentWindowStepsDown(config: Config, snapshot: Snapshot, prior: Prior, current: U32, now: int, i: nat, p: Policy)
    requires config.Valid() && config.fleet.minWorkers <= current <= config.fleet.maxWorkers
    requires Fresh(config, snapshot, now) && i < |snapshot.windows|
    requires InForce(config, snapshot.windows[i].id, p) && Spent(p, snapshot.windows[i])
    ensures var r := Evaluation(config, snapshot, prior, current, now);
            && r.Ok? && !r.value.stale
            && r.value.desired == Max(config.fleet.minWorkers, current - config.fleet.maxDown)
  {
    var ds := DecideWindows(config, snapshot.observedAt, prior, current, now, snapshot.windows);
    WindowAsks(config, snapshot.observedAt, prior, current, now, snapshot.windows[i], p);
    var floor := DecideWindow(config, snapshot.observedAt, prior, current, now, snapshot.windows[i])[0];
    WindowIsDecided(config, snapshot.observedAt, prior, current, now, snapshot.windows, i);
    assert floor in ds;
    hide InForce, Spent, DecideWindow, DecideWindows, Binding, Bound;
    var n := FreshDecision(config, snapshot, prior, current, now);
    var j :| 0 <= j < |ds| && ds[j] == floor;
    assert ds[n] in ds;
  }

  /** The same of a pool: unowned workers count toward what the windows ask for, and the
      elastic part steps toward what they leave of it. */
  lemma PoolDecision(config: Config, snapshot: Snapshot, prior: Prior, owned: U32, unowned: U32, now: int) returns (least: U32)
    requires config.Valid() && config.fleet.minWorkers <= owned <= config.fleet.maxWorkers
    requires config.fleet.maxWorkers + unowned <= U32_MAX && Fresh(config, snapshot, now)
    requires EvaluatePool(config, snapshot, prior, owned, unowned, now).Ok?
    ensures var d := EvaluatePool(config, snapshot, prior, owned, unowned, now).value;
            && (exists n :: 0 <= n < |d.windows| && d.windows[n].desired == least)
            && (forall i :: 0 <= i < |d.windows| ==> least <= d.windows[i].desired)
            && d.windows == DecideWindows(Pooled(config, unowned), snapshot.observedAt, prior, owned + unowned, now, snapshot.windows)
            && var wanted := match snapshot.backlog case Some(work) => Min(least, work) case None => least;
               StepsToward(config.fleet, owned, Within(config.fleet, wanted - unowned), d.desired)
  {
    hide DecideWindows, Evaluation;
    var pooled := Pooled(config, unowned);
    var d := Evaluation(pooled, snapshot, prior, owned + unowned, now);
    if unowned == 0 {
      assert pooled == config;
    }
    var n := FreshDecision(pooled, snapshot, prior, owned + unowned, now);
    least := d.value.windows[n].desired;
    assert d.value.windows == EvaluatePool(config, snapshot, prior, owned, unowned, now).value.windows;
  }

  // ---- what a decision promises ----

  /** A decision over the whole pool stays in the fleet's range and within one step of
      where it was, never starts workers on stale data, and starts none past the backlog. */
  lemma EvaluationBounds(config: Config, snapshot: Snapshot, prior: Prior, current: U32, now: int)
    requires config.Valid()
    requires var r := Evaluation(config, snapshot, prior, current, now); r.Ok?
    ensures var d, f := Evaluation(config, snapshot, prior, current, now).value, config.fleet;
            && d.current == current && d.unowned == 0 && d.desiredTotal.None?
            && d.desired <= f.maxWorkers
            && (f.minWorkers <= current <= f.maxWorkers ==>
                  f.minWorkers <= d.desired && current - f.maxDown <= d.desired <= current + f.maxUp)
            && (d.stale ==> d.desired <= current)
            && (!d.stale && snapshot.backlog.Some? ==> d.desired <= Max(current, snapshot.backlog.value))
  {
    hide DecideWindows, Binding;
  }

  /** The elastic result stays under the fleet's ceiling and up-step, never grows on
      stale data, and together with the unowned workers makes up the pool's target;
      with a pool that can be counted in 32 bits it keeps floor and down-step too. */
  lemma PoolKeepsRange(config: Config, snapshot: Snapshot, prior: Prior, owned: U32, unowned: U32, now: int)
    requires config.Valid() && config.fleet.minWorkers <= owned <= config.fleet.maxWorkers
    requires EvaluatePool(config, snapshot, prior, owned, unowned, now).Ok?
    ensures var d, f := EvaluatePool(config, snapshot, prior, owned, unowned, now).value, config.fleet;
            && d.desired <= f.maxWorkers && d.desired <= owned + f.maxUp
            && (d.stale ==> d.desired <= owned)
            && d.unowned == unowned
            && (unowned == 0 ==> d.desiredTotal.None?)
            && (unowned > 0 ==> d.desiredTotal == Some(d.desired + unowned))
            && (d.current == owned <==> owned + unowned <= U32_MAX)
            && (owned + unowned <= U32_MAX ==> f.minWorkers <= d.desired && owned - f.maxDown <= d.desired)
  {
    hide Evaluation;
    if unowned == 0 {
      EvaluationBounds(config, snapshot, prior, owned, now);
    } else {
      EvaluationBounds(Pooled(config, unowned), snapshot, prior, SatAdd(owned, unowned), now);
    }
  }

  /** Past 32 bits the shifted floor saturates: the pool keeps the fleet's floor
      exactly when the floor and the unowned workers can be added. */
  lemma PoolKeepsFloorExactly(config: Config, snapshot: Snapshot, prior: Prior, owned: U32, unowned: U32, now: int)
    requires config.Valid() && config.fleet.minWorkers <= owned <= config.fleet.maxWorkers
    requires EvaluatePool(config, snapshot, prior, owned, unowned, now).Ok?
    ensures config.fleet.minWorkers <= EvaluatePool(config, snapshot, prior, owned, unowned, now).value.desired
            <==> config.fleet.minWorkers + unowned <= U32_MAX
  {
    hide Evaluation;
    if unowned == 0 {
      EvaluationBounds(config, snapshot, prior, owned, now);
    } else {
      EvaluationBounds(Pooled(config, unowned), snapshot, prior, SatAdd(owned, unowned), now);
    }
  }

  /** Every decision about this fleet's pool keeps the down-step. */
  ghost predicate KeepsDownStep(fleet: FleetConfig, owned: U32, unowned: U32) {
    forall config: Config, snapshot, prior, now ::
      config.Valid() && config.fleet == fleet && EvaluatePool(config, snapshot, prior, owned, unowned, now).Ok? ==>
        owned - fleet.maxDown <= EvaluatePool(config, snapshot, prior, owned, unowned, now).value.desired
  }

  lemma PoolKeepsDownStep(config: Config, snapshot: Snapshot, prior: Prior, owned: U32, unowned: U32, now: int)
    requires config.Valid() && config.fleet.minWorkers <= owned <= config.fleet.maxWorkers
    requires EvaluatePool(config, snapshot, prior, owned, unowned, now).Ok?
    requires owned + unowned <= U32_MAX || owned - config.fleet.maxDown <= Min(config.fleet.minWorkers, U32_MAX - unowned)
    ensures owned - config.fleet.maxDown <= EvaluatePool(config, snapshot, prior, owned, unowned, now).value.desired
  {
    hide Evaluation;
    if unowned == 0 {
      EvaluationBounds(config, snapshot, prior, owned, now);
    } else {
      EvaluationBounds(Pooled(config, unowned), snapshot, prior, SatAdd(owned, unowned), now);
    }
  }

  /** On stale data a fleet that falls back to its floor goes as far down as it may. */
  lemma StalePoolStepsDown(config: Config, prior: Prior, owned: U32, unowned: U32)
    requires config.Valid() && config.staleBehavior.MinWorkers?
    requires config.fleet.minWorkers <= owned <= config.fleet.maxWorkers && U32_MAX < owned + unowned
    ensures var r := EvaluatePool(config, Snapshot(0, false, [], None), prior, owned, unowned, 0);
            r.Ok? && r.value.desired == Max(Min(config.fleet.minWorkers, U32_MAX - unowned),
                                            U32_MAX - config.fleet.maxDown - unowned)
  {
  }

  /** The down-step is kept by all decisions about a pool exactly when owned and unowned
      workers can be added in 32 bits, or floor and count keep the step from mattering. */
  lemma PoolKeepsDownStepExactly(config: Config, prior: Prior, owned: U32, unowned: U32)
    requires config.Valid() && config.fleet.minWorkers <= owned <= config.fleet.maxWorkers
    ensures KeepsDownStep(config.fleet, owned, unowned) <==>
              || owned + unowned <= U32_MAX
              || owned - config.fleet.maxDown <= Min(config.fleet.minWorkers, U32_MAX - unowned)
  {
    var f := config.fleet;
    if owned + unowned <= U32_MAX || owned - f.maxDown <= Min(f.minWorkers, U32_MAX - unowned) {
      forall c: Config, snapshot, p, now | c.Valid() && c.fleet == f && EvaluatePool(c, snapshot, p, owned, unowned, now).Ok?
        ensures owned - f.maxDown <= EvaluatePool(c, snapshot, p, owned, unowned, now).value.desired
      {
        PoolKeepsDownStep(c, snapshot, p, owned, unowned, now);
      }
    } else {
      hide EvaluatePool;
      StalePoolStepsDown(config.(staleBehavior := MinWorkers), prior, owned, unowned);
    }
  }

  /** The least pool past 32 bits: on stale data it is held, and loses a worker below
      its floor of two and past a down-step of none. */
  lemma HeldPoolLosesWorker(config: Config, prior: Prior)
    requires config.fleet == FleetConfig(2, 2, 2, 0, 0) && config.staleBehavior.HoldWorkers?
    ensures var r := EvaluatePool(config, Snapshot(0, false, [], None), prior, 2, U32_MAX - 1, 0);
            r.Ok? && r.value.current == 1 == r.value.desired && !KeepsDownStep(config.fleet, 2, U32_MAX - 1)
  {
    hide KeepsDownStep;
    PoolKeepsDownStepExactly(config, prior, 2, U32_MAX - 1);
  }

  // ---- more windows never mean more workers ----

  lemma {:induction false} DecideWindowsAppend(config: Config, observedAt: int, prior: Prior, current: U32, now: int,
                                               xs: seq<Window>, ys: seq<Window>)
    requires config.Valid()
    ensures DecideWindows(config, observedAt, prior, current, now, xs + ys)
            == DecideWindows(config, observedAt, prior, current, now, xs)
               + DecideWindows(config, observedAt, prior, current, now, ys)
  {
    hide DecideWindow;
    if ys == [] {
      assert xs + ys == xs;
    } else {
      var n := |ys| - 1;
      assert (xs + ys)[..|xs + ys| - 1] == xs + ys[..n];
      DecideWindowsAppend(config, observedAt, prior, current, now, xs, ys[..n]);
    }
  }

  lemma BindingOfMore(xs: seq<WindowDecision>, more: seq<WindowDecision>, ys: seq<WindowDecision>)
    requires xs + ys != []
    ensures Binding(xs + more + ys).desired <= Binding(xs + ys).desired
  {
    var few, many := xs + ys, xs + more + ys;
    var i := BindingIsFirstLeast(few);
    var j := BindingIsFirstLeast(many);
    var k := if i < |xs| then i else i + |more|;
    assert many[k] == few[i];
  }

  lemma BoundMonotone(raw: U32, less: U32, current: U32, config: Config, backlog: Option<U32>)
    requires config.Valid() && less <= raw
    ensures Bound(less, current, config, backlog) <= Bound(raw, current, config, backlog)
  {
  }

  /** Observing one more window, anywhere in a fresh snapshot, never raises the result. */
  lemma MoreWindowsNeverRaise(config: Config, observedAt: int, backlog: Option<U32>, xs: seq<Window>, w: Window,
                              ys: seq<Window>, prior: Prior, owned: U32, unowned: U32, now: int)
    requires config.Valid()
    requires EvaluatePool(config, Snapshot(observedAt, true, xs + ys, backlog), prior, owned, unowned, now).Ok?
    ensures var r := EvaluatePool(config, Snapshot(observedAt, true, xs + [w] + ys, backlog), prior, owned, unowned, now);
            && r.Ok?
            && r.value.desired
               <= EvaluatePool(config, Snapshot(observedAt, true, xs + ys, backlog), prior, owned, unowned, now).value.desired
  {
    if unowned == 0 {
      MoreWindowsNeverRaiseTotal(config, observedAt, backlog, xs, w, ys, prior, owned, now);
    } else {
      MoreWindowsNeverRaiseTotal(Pooled(config, unowned), observedAt, backlog, xs, w, ys, prior, SatAdd(owned, unowned), now);
    }
    hide Evaluation;
  }

  lemma MoreWindowsNeverRaiseTotal(config: Config, observedAt: int, backlog: Option<U32>, xs: seq<Window>, w: Window,
                                   ys: seq<Window>, prior: Prior, current: U32, now: int)
    requires config.Valid()
    requires Evaluation(config, Snapshot(observedAt, true, xs + ys, backlog), prior, current, now).Ok?
    ensures var r := Evaluation(config, Snapshot(observedAt, true, xs + [w] + ys, backlog), prior, current, now);
            && r.Ok?
            && r.value.desired
               <= Evaluation(config, Snapshot(observedAt, true, xs + ys, backlog), prior, current, now).value.desired
  {
    hide Bound, DecideWindow, Binding;
    var dx := DecideWindows(config, observedAt, prior, current, now, xs);
    var dw := DecideWindows(config, observedAt, prior, current, now, [w]);
    var dy := DecideWindows(config, observedAt, prior, current, now, ys);
    DecideWindowsAppend(config, observedAt, prior, current, now, xs, ys);
    DecideWindowsAppend(config, observedAt, prior, current, now, xs, [w]);
    DecideWindowsAppend(config, observedAt, prior, current, now, xs + [w], ys);
    if dx + dy != [] {
      BindingOfMore(dx, dw, dy);
      BoundMonotone(Binding(dx + dy).desired, Binding(dx + dw + dy).desired, current, config, backlog);
    }
  }
}
