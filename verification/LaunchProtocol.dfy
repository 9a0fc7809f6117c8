/** N hosts running the launch gate against one another with no coordinator.

    Every host repeats the cycle of src/main.rs: count its workers, maybe gate a
    launch, actuate (with a gate or without one), write the status file, and only
    then clear a reservation that has been seen in full. Hosts interleave freely; a peer's record is read
    one host at a time, so a gate's view of its peers is never a snapshot. */
module LaunchProtocol {
  import opened Common
  import opened LaunchGate

  datatype Phase =
    | Idle
    | Observed
    | Gating(previous: Option<PendingEntry>, want: nat, total: nat, stamp: nat, seen: map<nat, PeerRecord>)
    | Committed(permitted: nat)
    | Refused
    | Acted
    | Clearing

  /** `live` workers are observable, `inflight` ones have been launched but are
      not. `status` and `pending` are the two published files; `own` and `clear`
      are the cycle's own variables. */
  datatype Host = Host(live: nat, inflight: nat, status: nat, pending: Option<PendingEntry>,
                       own: nat, clear: bool, phase: Phase)

  /** `limit` bounds every controller total the hosts derive; `clock` numbers the
      published intents and is read by no step. */
  datatype System = System(hosts: seq<Host>, clock: nat, fingerprint: string, limit: nat)

  datatype Action =
    | Observe(h: nat)
    | Hold(h: nat)
    | Reconcile(h: nat, count: nat)
    | Publish(h: nat, want: nat, total: nat)
    | Pull(h: nat, peer: nat)
    | Settle(h: nat)
    | Launch(h: nat, count: nat)
    | Report(h: nat)
    | ReportFails(h: nat)
    | Clear(h: nat)
    | Appear(h: nat)
    | Die(h: nat)
    | Fizzle(h: nat)
    | Fail(h: nat)

  function Workers(x: Host): nat { x.live + x.inflight }

  function Published(x: Host): nat { x.status + PendingCount(x.pending) }

  function WorkerCounts(hosts: seq<Host>): (r: seq<nat>)
    ensures |r| == |hosts| && forall i :: 0 <= i < |hosts| ==> r[i] == Workers(hosts[i])
  {
    seq(|hosts|, i requires 0 <= i < |hosts| => Workers(hosts[i]))
  }

  function TotalWorkers(s: System): nat { SumSeq(WorkerCounts(s.hosts)) }

  /** A record whose two halves were read at two moments, status first. */
  function TornRecord(x: Host, y: Host, fingerprint: string): PeerRecord {
    PeerRecord([PeerAccount(fingerprint, [PoolState(x.status, PendingCount(y.pending))])])
  }

  /** The record one atomic read of a host yields. */
  function RecordOf(x: Host, fingerprint: string): PeerRecord { TornRecord(x, x, fingerprint) }

  /** The pulled records of the first n hosts other than h, in host order. */
  function Pulled(seen: map<nat, PeerRecord>, h: nat, n: nat): seq<PeerRecord>
    requires forall g: nat :: g < n && g != h ==> g in seen
  {
    if n == 0 then []
    else Pulled(seen, h, n - 1) + (if n - 1 == h then [] else [seen[n - 1]])
  }

  predicate PulledAll(x: Host, h: nat, n: nat)
    requires x.phase.Gating?
  {
    forall g: nat :: g < n && g != h ==> g in x.phase.seen
  }

  function Permitted(s: System, h: nat): nat
    requires h < |s.hosts| && s.hosts[h].phase.Gating? && PulledAll(s.hosts[h], h, |s.hosts|)
  {
    var x := s.hosts[h];
    PermittedLaunch(x.phase.want, x.own, PendingCount(x.phase.previous),
                    PeersCommitted(Pulled(x.phase.seen, h, |s.hosts|), s.fingerprint), x.phase.total)
  }

  predicate Enabled(s: System, a: Action) {
    && a.h < |s.hosts|
    && var x := s.hosts[a.h];
       match a
       case Observe(_) => x.phase.Idle?
       case Hold(_) => x.phase.Observed? || x.phase.Refused?
       // a cycle that was admitted nothing actuates a target of at most `own` all the same
       case Reconcile(_, count) => (x.phase.Observed? || x.phase.Refused?) && x.live + count <= x.own
       case Publish(_, want, total) =>
         x.phase.Observed? && PendingCount(x.pending) == 0 && want <= U32_MAX && total <= s.limit
       case Pull(_, peer) => x.phase.Gating? && peer < |s.hosts| && peer != a.h
       case Settle(_) => x.phase.Gating? && PulledAll(x, a.h, |s.hosts|)
       // the actuator recounts what it can see and starts at most what is missing to its target
       case Launch(_, count) => x.phase.Committed? && x.live + count <= x.own + x.phase.permitted
       case Report(_) => x.phase.Acted?
       case ReportFails(_) => x.phase.Acted?
       case Clear(_) => x.phase.Clearing?
       case Appear(_) => x.inflight > 0
       case Die(_) => x.live > 0
       case Fizzle(_) => x.inflight > 0
       case Fail(_) => !x.phase.Idle? && !x.phase.Clearing?
  }

  function NextHost(s: System, a: Action): Host
    requires Enabled(s, a)
  {
    var x := s.hosts[a.h];
    match a
    case Observe(_) => x.(own := x.live, clear := PendingObserved(x.pending, x.live), phase := Observed)
    case Hold(_) => x.(phase := Acted)
    case Reconcile(_, count) => x.(inflight := x.inflight + count, phase := Acted)
    case Publish(_, want, total) =>
      x.(pending := Some(Reservation(x.pending, x.own, PendingCount(x.pending), want)),
         phase := Gating(x.pending, want, total, s.clock, map[]))
    case Pull(_, peer) =>
      x.(phase := x.phase.(seen := x.phase.seen[peer := RecordOf(s.hosts[peer], s.fingerprint)]))
    case Settle(_) =>
      var permitted := Permitted(s, a.h);
      var previous := x.phase.previous;
      if permitted == 0 then x.(pending := previous, phase := Refused)
      else x.(pending := Some(Reservation(previous, x.own, PendingCount(previous), permitted)),
              phase := Committed(permitted))
    case Launch(_, count) => x.(inflight := x.inflight + count, phase := Acted)
    case Report(_) => x.(status := x.own, phase := if x.clear then Clearing else Idle)
    case ReportFails(_) => x.(phase := Idle)
    case Clear(_) => x.(pending := None, phase := Idle)
    case Appear(_) => x.(live := x.live + 1, inflight := x.inflight - 1)
    case Die(_) => x.(live := x.live - 1)
    case Fizzle(_) => x.(inflight := x.inflight - 1)
    // a failed account cycle withdraws an open intent, keeps what was admitted, and publishes
    // no worker count, which is read as zero
    case Fail(_) => x.(status := 0, pending := if x.phase.Gating? then x.phase.previous else x.pending, phase := Idle)
  }

  /** Publish and Settle write what `PendingFile.GateLaunch` writes: its first version of
      the pool's entry, and, over the records this gate pulled, its last one. */
  lemma GateStepsAreFileVersions(s: System, h: nat, want: nat, total: nat, entries: map<Name, PendingEntry>, pool: Name)
    requires h < |s.hosts|
    ensures Enabled(s, Publish(h, want, total)) && Lookup(entries, pool) == s.hosts[h].pending ==>
              var x := s.hosts[h];
              var intent := entries[pool := Reservation(Lookup(entries, pool), x.own, PendingCount(x.pending), want)];
              NextHost(s, Publish(h, want, total)).pending == Lookup(intent, pool)
    ensures Enabled(s, Settle(h)) && Lookup(entries, pool) == s.hosts[h].phase.previous ==>
              var x, permitted := s.hosts[h], Permitted(s, h);
              var last := if permitted == 0 then entries
                          else entries[pool := Reservation(Lookup(entries, pool), x.own, PendingCount(x.phase.previous), permitted)];
              NextHost(s, Settle(h)).pending == Lookup(last, pool)
  {
    hide PermittedLaunch, Pulled, PeersCommitted, Reservation;
  }

  function Replace(s: System, h: nat, y: Host): System
    requires h < |s.hosts|
  {
    s.(hosts := s.hosts[h := y], clock := s.clock + 1)
  }

  function Next(s: System, a: Action): System
    requires Enabled(s, a)
  {
    Replace(s, a.h, NextHost(s, a))
  }

  ghost predicate Runs(s: System, run: seq<Action>)
    decreases |run|, 0
  {
    var n := |run| - 1;
    run == [] || (Runs(s, run[..n]) && Enabled(After(s, run[..n]), run[n]))
  }

  ghost function After(s: System, run: seq<Action>): System
    requires Runs(s, run)
    decreases |run|, 1
  {
    var n := |run| - 1;
    if run == [] then s else Next(After(s, run[..n]), run[n])
  }

  /** What a cycle that was admitted nothing may start: replacements that the open
      reservation has room for beside what is in flight, and none at all when this
      cycle clears the reservation. */
  predicate Reserves(x: Host, count: nat) {
    count == 0 || (!x.clear && x.inflight + count <= PendingCount(x.pending))
  }

  /** The hypotheses a step must meet. The account's cycle succeeds. A launch
      starts no more workers than the gate admitted, and a cycle without an
      admission no more than its reservation has room for, though the actuator's
      own recount would ask for more when workers died since `own` was counted. */
  predicate Sound(s: System, a: Action) {
    && !a.Fail?
    && (a.Launch? && a.h < |s.hosts| && s.hosts[a.h].phase.Committed? ==> a.count <= s.hosts[a.h].phase.permitted)
    && (a.Reconcile? && a.h < |s.hosts| ==> Reserves(s.hosts[a.h], a.count))
  }

  ghost predicate SoundRun(s: System, run: seq<Action>)
    requires Runs(s, run)
    decreases |run|
  {
    var n := |run| - 1;
    run == [] || (SoundRun(s, run[..n]) && Sound(After(s, run[..n]), run[n]))
  }

  /** Every host between cycles, nothing in flight, and its status covering its workers. */
  predicate Init(s: System) {
    && 0 < s.clock
    && s.limit <= U32_MAX
    && forall h :: 0 <= h < |s.hosts| ==>
         var x := s.hosts[h];
         x.phase.Idle? && x.pending.None? && x.inflight == 0 && x.live <= x.status
  }

  // ---- what one host keeps ----

  /** Counted, and not admitted anything in this cycle. */
  predicate Holding(x: Host) { x.phase.Observed? || x.phase.Refused? }

  ghost predicate HostInv(x: Host, limit: nat) {
    var reserved := PendingCount(x.pending);
    && Workers(x) <= x.status + reserved
    && x.inflight <= reserved
    && (x.pending.Some? ==> x.pending.value.Reserved?)
    && (x.pending.Some? && !x.phase.Gating? ==>
          && 0 < reserved
          && x.pending.value.baseline + reserved <= U32_MAX
          && Workers(x) <= x.pending.value.baseline + reserved
          && (Holding(x) ==> x.own + x.inflight <= x.pending.value.baseline + reserved))
    && (Holding(x) || x.phase.Acted? ==> Workers(x) <= x.own + reserved)
    && (Holding(x) ==> x.own + x.inflight <= x.status + reserved)
    && (x.phase.Observed? && x.pending.None? ==> x.own <= x.status)
    && ((Holding(x) || x.phase.Acted?) && x.clear ==> x.pending.Some? && x.inflight == 0 && x.live <= x.own)
    && (x.phase.Gating? ==>
          && x.phase.previous.None?
          && x.pending == Some(Reserved(x.phase.want, x.own))
          && x.inflight == 0 && x.live <= x.own <= x.status
          && !x.clear && x.phase.total <= limit)
    && (x.phase.Committed? ==>
          && x.pending == Some(Reserved(x.phase.permitted, x.own))
          && x.inflight == 0 && x.live <= x.own <= x.status
          && !x.clear)
    && (x.phase.Clearing? ==> x.pending.Some? && x.inflight == 0 && x.live <= x.status)
  }

  /** The workers a host holds, is already entitled to launch, or may still
      replace in this cycle. */
  ghost function Claim(x: Host): nat {
    if x.phase.Committed? then x.own + x.phase.permitted
    else if Holding(x) || x.phase.Gating? then Max(Workers(x), x.own + x.inflight)
    else Workers(x)
  }

  // ---- what the hosts keep together ----

  /** A bound per host whose sum the limit covers once anything was admitted,
      taken from the admission whose intent was published last; `stamp` is that
      intent's number, or 0 before the first admission. */
  datatype Ledger = Ledger(bound: seq<nat>, stamp: nat)

  /** The host is gating on an intent published before the given one. */
  ghost predicate OlderGate(x: Host, stamp: nat) {
    x.phase.Gating? && x.phase.stamp < stamp
  }

  /** Each host's claim is inside its bound, and so is what a gate that was open
      when the ledger was taken may still claim. A reservation stems from an admission. */
  ghost predicate Bounded(s: System, l: Ledger) {
    && |l.bound| == |s.hosts|
    && (l.stamp > 0 ==> SumSeq(l.bound) <= s.limit)
    && forall h :: 0 <= h < |s.hosts| ==>
         && Claim(s.hosts[h]) <= l.bound[h]
         && (s.hosts[h].pending.Some? && !s.hosts[h].phase.Gating? ==> l.stamp > 0)
         && (OlderGate(s.hosts[h], l.stamp) ==> s.hosts[h].own + s.hosts[h].phase.want <= l.bound[h])
  }

  /** What x read of y still covers y's claim, and y's intent if it was published before x's. */
  ghost predicate ReadCovers(x: Host, record: PeerRecord, y: Host, fingerprint: string)
    requires x.phase.Gating?
  {
    && Claim(y) <= RecordExact(record, fingerprint)
    && (OlderGate(y, x.phase.stamp) ==> y.own + y.phase.want <= RecordExact(record, fingerprint))
  }

  /** Reads made by a gate whose intent is newer than the ledger are still good. */
  ghost predicate ReadsCover(s: System, l: Ledger) {
    forall h, g :: 0 <= h < |s.hosts| && 0 <= g < |s.hosts| && g != h
                   && s.hosts[h].phase.Gating? && l.stamp < s.hosts[h].phase.stamp
                   && g in s.hosts[h].phase.seen
      ==> ReadCovers(s.hosts[h], s.hosts[h].phase.seen[g], s.hosts[g], s.fingerprint)
  }

  ghost predicate StampsDistinct(s: System, l: Ledger) {
    && l.stamp < s.clock
    && (forall h :: 0 <= h < |s.hosts| && s.hosts[h].phase.Gating?
          ==> s.hosts[h].phase.stamp < s.clock && s.hosts[h].phase.stamp != l.stamp)
    && (forall h, g :: 0 <= h < g < |s.hosts| && s.hosts[h].phase.Gating? && s.hosts[g].phase.Gating?
          ==> s.hosts[h].phase.stamp != s.hosts[g].phase.stamp)
  }

  ghost predicate Inv(s: System, l: Ledger) {
    && s.limit <= U32_MAX
    && (forall h :: 0 <= h < |s.hosts| ==> HostInv(s.hosts[h], s.limit))
    && StampsDistinct(s, l)
    && Bounded(s, l)
    && ReadsCover(s, l)
  }

  lemma InitInv(s: System)
    requires Init(s)
    ensures Inv(s, Ledger(WorkerCounts(s.hosts), 0))
  {
  }

  lemma TornRecordSum(x: Host, y: Host, fingerprint: string)
    ensures RecordExact(TornRecord(x, y, fingerprint), fingerprint) == x.status + PendingCount(y.pending)
  {
    var pools := [PoolState(x.status, PendingCount(y.pending))];
    var accounts := [PeerAccount(fingerprint, pools)];
    var published := x.status + PendingCount(y.pending);
    assert PoolsExact(pools) == [] + [published];
    SumSeqSnoc([], published);
    assert TornRecord(x, y, fingerprint).accounts == accounts;
    assert AccountsExact(accounts, fingerprint) == [] + [published];
  }

  /** One host's own step keeps its bookkeeping; no peer is consulted. */
  lemma HostStep(s: System, l: Ledger, a: Action)
    requires Inv(s, l) && Enabled(s, a) && Sound(s, a)
    ensures HostInv(NextHost(s, a), s.limit)
  {
    assert HostInv(s.hosts[a.h], s.limit);
    if a.Settle? && Permitted(s, a.h) > 0 {
      hide *;
      CommitKeepsHost(s, a.h);
    } else if a.Publish? || a.Pull? || a.Settle? {
      hide Permitted, Pulled, PeersCommitted, PermittedLaunch, RecordOf;
    } else {
      hide *;
      CycleKeepsHost(s, a);
    }
  }

  lemma CycleKeepsHost(s: System, a: Action)
    requires Enabled(s, a) && Sound(s, a) && HostInv(s.hosts[a.h], s.limit)
    requires !a.Publish? && !a.Pull? && !a.Settle?
    ensures HostInv(NextHost(s, a), s.limit)
  {
  }

  /** No claim is raised and no open gate's intent is revised; a new intent
      carries the newest stamp. */
  ghost predicate QuietChange(x: Host, y: Host, clock: nat) {
    && Claim(y) <= Claim(x)
    && (y.pending.Some? && !y.phase.Gating? ==> x.pending.Some? && !x.phase.Gating?)
    && (y.phase.Gating? && y.phase.stamp != clock ==>
          && x.phase.Gating? && y.phase.stamp == x.phase.stamp
          && y.phase.want == x.phase.want && y.own == x.own)
  }

  lemma QuietStep(s: System, l: Ledger, a: Action)
    requires Inv(s, l) && Enabled(s, a) && Sound(s, a)
    requires a.Settle? ==> Permitted(s, a.h) == 0
    ensures QuietChange(s.hosts[a.h], NextHost(s, a), s.clock)
  {
    assert HostInv(s.hosts[a.h], s.limit);
  }

  /** What a host publishes covers its claim, and its intent while it gates. */
  lemma PublishedCoversClaim(x: Host, limit: nat)
    requires HostInv(x, limit)
    ensures Claim(x) <= Published(x)
    ensures x.phase.Gating? ==> x.own + x.phase.want <= Published(x)
  {
  }

  lemma QuietChangeKeepsReads(s: System, l: Ledger, a: nat, y: Host, h: nat, g: nat)
    requires ReadsCover(s, l) && a < |s.hosts| && QuietChange(s.hosts[a], y, s.clock) && StampsDistinct(s, l)
    requires h < |s.hosts| && g < |s.hosts| && g != h
    requires var x := Replace(s, a, y).hosts[h];
             && x.phase.Gating? && l.stamp < x.phase.stamp && g in x.phase.seen
             && s.hosts[h].phase.Gating? && s.hosts[h].phase.stamp == x.phase.stamp
             && g in s.hosts[h].phase.seen && s.hosts[h].phase.seen[g] == x.phase.seen[g]
    ensures var s' := Replace(s, a, y);
            ReadCovers(s'.hosts[h], s'.hosts[h].phase.seen[g], s'.hosts[g], s.fingerprint)
  {
    hide Claim, RecordExact;
    assert ReadCovers(s.hosts[h], s.hosts[h].phase.seen[g], s.hosts[g], s.fingerprint);
  }

  lemma PullReadsClaim(s: System, h: nat, g: nat)
    requires Enabled(s, Pull(h, g)) && HostInv(s.hosts[g], s.limit)
    ensures var s' := Next(s, Pull(h, g));
            ReadCovers(s'.hosts[h], s'.hosts[h].phase.seen[g], s'.hosts[g], s.fingerprint)
  {
    TornRecordSum(s.hosts[g], s.hosts[g], s.fingerprint);
    PublishedCoversClaim(s.hosts[g], s.limit);
  }

  lemma QuietStepKeepsReads(s: System, l: Ledger, a: Action)
    requires Inv(s, l) && Enabled(s, a) && Sound(s, a)
    requires a.Settle? ==> Permitted(s, a.h) == 0
    ensures ReadsCover(Next(s, a), l)
  {
    QuietStep(s, l, a);
    var s' := Next(s, a);
    forall h, g | 0 <= h < |s'.hosts| && 0 <= g < |s'.hosts| && g != h
                  && s'.hosts[h].phase.Gating? && l.stamp < s'.hosts[h].phase.stamp
                  && g in s'.hosts[h].phase.seen
      ensures ReadCovers(s'.hosts[h], s'.hosts[h].phase.seen[g], s'.hosts[g], s'.fingerprint)
    {
      if a == Pull(h, g) {
        PullReadsClaim(s, h, g);
      } else {
        hide Permitted, PendingObserved, Reservation, HostInv, Bounded, Sound, QuietChange;
        QuietChangeKeepsReads(s, l, a.h, NextHost(s, a), h, g);
      }
    }
  }

  lemma QuietChangeKeepsBounds(s: System, l: Ledger, h: nat, y: Host)
    requires Bounded(s, l) && StampsDistinct(s, l) && h < |s.hosts|
    requires QuietChange(s.hosts[h], y, s.clock)
    ensures Bounded(Replace(s, h, y), l) && StampsDistinct(Replace(s, h, y), l)
  {
  }

  /** Every step but an admission leaves the ledger as it is. */
  lemma QuietStepKeepsInv(s: System, l: Ledger, a: Action)
    requires Inv(s, l) && Enabled(s, a) && Sound(s, a)
    requires a.Settle? ==> Permitted(s, a.h) == 0
    ensures Inv(Next(s, a), l)
  {
    HostStep(s, l, a);
    QuietStep(s, l, a);
    QuietChangeKeepsBounds(s, l, a.h, NextHost(s, a));
    QuietStepKeepsReads(s, l, a);
    var s' := Next(s, a);
    forall h | 0 <= h < |s'.hosts| ensures HostInv(s'.hosts[h], s'.limit) {
      assert HostInv(s.hosts[h], s.limit);
    }
  }

  // ---- an admission ----

  /** The exact counts behind the pulled records, by host. */
  ghost function View(seen: map<nat, PeerRecord>, fingerprint: string): (r: map<nat, nat>)
    ensures r.Keys == seen.Keys && forall g :: g in seen ==> r[g] == RecordExact(seen[g], fingerprint)
  {
    map g | g in seen :: RecordExact(seen[g], fingerprint)
  }

  /** A bound per host: h's own claim, and what it saw of the others. */
  ghost function Snapshot(view: map<nat, nat>, h: nat, n: nat, claim: nat): (r: seq<nat>)
    requires forall g: nat :: g < n && g != h ==> g in view
    ensures |r| == n && forall g: nat :: g < n ==> r[g] == if g == h then claim else view[g]
  {
    seq(n, g requires 0 <= g < n => if g == h then claim else view[g])
  }

  ghost function Others(view: map<nat, nat>, h: nat, n: nat): seq<nat>
    requires forall g: nat :: g < n && g != h ==> g in view
  {
    if n == 0 then [] else Others(view, h, n - 1) + (if n - 1 == h then [] else [view[n - 1]])
  }

  lemma {:induction false} PulledView(seen: map<nat, PeerRecord>, h: nat, n: nat, fingerprint: string)
    requires forall g: nat :: g < n && g != h ==> g in seen
    ensures RecordsExact(Pulled(seen, h, n), fingerprint) == Others(View(seen, fingerprint), h, n)
  {
    if n > 0 {
      PulledView(seen, h, n - 1, fingerprint);
    }
  }

  lemma {:induction false} SnapshotSum(view: map<nat, nat>, h: nat, n: nat, claim: nat)
    requires forall g: nat :: g < n && g != h ==> g in view
    ensures SumSeq(Snapshot(view, h, n, claim)) == (if h < n then claim else 0) + SumSeq(Others(view, h, n))
  {
    if n > 0 {
      SnapshotSum(view, h, n - 1, claim);
      SnapshotGrows(view, h, n, claim);
    }
  }

  lemma SnapshotGrows(view: map<nat, nat>, h: nat, n: nat, claim: nat)
    requires 0 < n && forall g: nat :: g < n && g != h ==> g in view
    ensures SumSeq(Snapshot(view, h, n, claim))
            == SumSeq(Snapshot(view, h, n - 1, claim)) + if n - 1 == h then claim else view[n - 1]
    ensures SumSeq(Others(view, h, n)) == SumSeq(Others(view, h, n - 1)) + if n - 1 == h then 0 else view[n - 1]
  {
    hide SumSeq;
    var last := if n - 1 == h then claim else view[n - 1];
    assert Snapshot(view, h, n, claim) == Snapshot(view, h, n - 1, claim) + [last];
    SumSeqSnoc(Snapshot(view, h, n - 1, claim), last);
    if n - 1 == h {
      assert Others(view, h, n) == Others(view, h, n - 1);
    } else {
      SumSeqSnoc(Others(view, h, n - 1), last);
    }
  }

  /** h's claim fits in the limit beside everything its gate pulled. */
  ghost predicate ViewFits(s: System, h: nat, claim: nat)
    requires h < |s.hosts| && s.hosts[h].phase.Gating? && PulledAll(s.hosts[h], h, |s.hosts|)
  {
    SumSeq(Snapshot(View(s.hosts[h].phase.seen, s.fingerprint), h, |s.hosts|, claim)) <= s.limit
  }

  /** h leaves its gate as `y`, entitled to no more than it had published, and
      with everything it pulled still inside the limit. */
  ghost predicate Admitted(s: System, h: nat, y: Host) {
    && h < |s.hosts|
    && var x := s.hosts[h];
       && x.phase.Gating? && PulledAll(x, h, |s.hosts|)
       && y.phase.Committed?
       && Claim(y) <= x.own + x.phase.want
       && ViewFits(s, h, Claim(y))
  }

  lemma AdmittedViewFits(seen: map<nat, PeerRecord>, h: nat, n: nat, fingerprint: string,
                         want: nat, own: nat, total: nat)
    requires h < n && total <= U32_MAX
    requires forall g: nat :: g < n && g != h ==> g in seen
    requires PermittedLaunch(want, own, 0, PeersCommitted(Pulled(seen, h, n), fingerprint), total) > 0
    ensures var permitted := PermittedLaunch(want, own, 0, PeersCommitted(Pulled(seen, h, n), fingerprint), total);
            SumSeq(Snapshot(View(seen, fingerprint), h, n, own + permitted)) <= total
  {
    hide PermittedLaunch, PeersCommitted, Pulled, Others, Snapshot, RecordsExact;
    AdmissionIsExact(want, own, 0, Pulled(seen, h, n), fingerprint, total);
    PulledView(seen, h, n, fingerprint);
    SnapshotSum(View(seen, fingerprint), h, n,
                own + PermittedLaunch(want, own, 0, PeersCommitted(Pulled(seen, h, n), fingerprint), total));
  }

  lemma CommitKeepsHost(s: System, h: nat)
    requires s.limit <= U32_MAX && Enabled(s, Settle(h)) && HostInv(s.hosts[h], s.limit) && Permitted(s, h) > 0
    ensures HostInv(NextHost(s, Settle(h)), s.limit)
    ensures NextHost(s, Settle(h)).phase.Committed?
    ensures Claim(NextHost(s, Settle(h))) == s.hosts[h].own + Permitted(s, h) <= s.hosts[h].own + s.hosts[h].phase.want
  {
    hide Pulled, PeersCommitted;
  }

  lemma PermittedFits(s: System, h: nat)
    requires s.limit <= U32_MAX && Enabled(s, Settle(h)) && HostInv(s.hosts[h], s.limit) && Permitted(s, h) > 0
    ensures ViewFits(s, h, s.hosts[h].own + Permitted(s, h))
  {
    hide PermittedLaunch, Pulled, View, Snapshot, PeersCommitted, SumSeq;
    var x := s.hosts[h];
    AdmittedViewFits(x.phase.seen, h, |s.hosts|, s.fingerprint, x.phase.want, x.own, x.phase.total);
  }

  lemma CommitFits(s: System, h: nat)
    requires s.limit <= U32_MAX && Enabled(s, Settle(h)) && HostInv(s.hosts[h], s.limit) && Permitted(s, h) > 0
    ensures Admitted(s, h, NextHost(s, Settle(h)))
  {
    CommitKeepsHost(s, h);
    PermittedFits(s, h);
    hide HostInv, ViewFits, Permitted, Claim;
  }

  /** A ledger that still bounds everybody once h commits to `y`: h's own pulled
      view if its intent is the newest admitted so far, and otherwise the old
      ledger, whose newer gate had already counted h's intent. */
  ghost function LedgerAfter(s: System, l: Ledger, h: nat, y: Host): Ledger
    requires Admitted(s, h, y)
  {
    var x := s.hosts[h];
    if x.phase.stamp < l.stamp then l
    else Ledger(Snapshot(View(x.phase.seen, s.fingerprint), h, |s.hosts|, Claim(y)), x.phase.stamp)
  }

  lemma AdmissionKeepsBounds(s: System, l: Ledger, h: nat, y: Host)
    requires Inv(s, l) && Admitted(s, h, y)
    ensures Bounded(Replace(s, h, y), LedgerAfter(s, l, h, y))
    ensures StampsDistinct(Replace(s, h, y), LedgerAfter(s, l, h, y))
  {
    var x, l', s' := s.hosts[h], LedgerAfter(s, l, h, y), Replace(s, h, y);
    forall g | 0 <= g < |s'.hosts|
      ensures Claim(s'.hosts[g]) <= l'.bound[g]
      ensures OlderGate(s'.hosts[g], l'.stamp) ==> s'.hosts[g].own + s'.hosts[g].phase.want <= l'.bound[g]
    {
      if l.stamp < x.phase.stamp && g != h {
        assert ReadCovers(x, x.phase.seen[g], s.hosts[g], s.fingerprint);
      }
    }
  }

  lemma AdmissionKeepsReads(s: System, l: Ledger, h: nat, y: Host)
    requires Inv(s, l) && Admitted(s, h, y)
    ensures ReadsCover(Replace(s, h, y), LedgerAfter(s, l, h, y))
  {
    var l', s' := LedgerAfter(s, l, h, y), Replace(s, h, y);
    forall k, g | 0 <= k < |s'.hosts| && 0 <= g < |s'.hosts| && g != k
                  && s'.hosts[k].phase.Gating? && l'.stamp < s'.hosts[k].phase.stamp
                  && g in s'.hosts[k].phase.seen
      ensures ReadCovers(s'.hosts[k], s'.hosts[k].phase.seen[g], s'.hosts[g], s'.fingerprint)
    {
      assert ReadCovers(s.hosts[k], s.hosts[k].phase.seen[g], s.hosts[g], s.fingerprint);
    }
  }

  lemma AdmissionKeepsInv(s: System, l: Ledger, h: nat) returns (l': Ledger)
    requires Inv(s, l) && Enabled(s, Settle(h)) && Permitted(s, h) > 0
    ensures Inv(Next(s, Settle(h)), l')
  {
    assert HostInv(s.hosts[h], s.limit);
    CommitKeepsHost(s, h);
    CommitFits(s, h);
    var y := NextHost(s, Settle(h));
    AdmissionKeepsBounds(s, l, h, y);
    AdmissionKeepsReads(s, l, h, y);
    l' := LedgerAfter(s, l, h, y);
    var s' := Next(s, Settle(h));
    forall g | 0 <= g < |s'.hosts| ensures HostInv(s'.hosts[g], s'.limit) {
      assert HostInv(s.hosts[g], s.limit);
    }
  }

  // ---- whole runs ----

  lemma StepKeepsInv(s: System, l: Ledger, a: Action) returns (l': Ledger)
    requires Inv(s, l) && Enabled(s, a) && Sound(s, a)
    ensures Inv(Next(s, a), l')
  {
    if a.Settle? && Permitted(s, a.h) > 0 {
      l' := AdmissionKeepsInv(s, l, a.h);
    } else {
      QuietStepKeepsInv(s, l, a);
      l' := l;
    }
  }

  lemma {:induction false} RunKeepsInv(s: System, run: seq<Action>) returns (l: Ledger)
    requires Init(s) && Runs(s, run) && SoundRun(s, run)
    ensures Inv(After(s, run), l)
    decreases |run|
  {
    if run == [] {
      InitInv(s);
      l := Ledger(WorkerCounts(s.hosts), 0);
    } else {
      var n := |run| - 1;
      l := RunKeepsInv(s, run[..n]);
      l := StepKeepsInv(After(s, run[..n]), l, run[n]);
    }
  }

  /** At every moment of every sound run, what each host publishes covers every
      worker it has running or in flight. */
  lemma PublishedCoversWorkers(s: System, run: seq<Action>, h: nat)
    requires Init(s) && Runs(s, run) && SoundRun(s, run) && h < |s.hosts|
    ensures h < |After(s, run).hosts|
    ensures Workers(After(s, run).hosts[h]) <= Published(After(s, run).hosts[h])
  {
    RunKeepsHosts(s, run);
    var l := RunKeepsInv(s, run);
    assert HostInv(After(s, run).hosts[h], After(s, run).limit);
  }

  lemma RunKeepsHosts(s: System, run: seq<Action>)
    requires Runs(s, run)
    ensures |After(s, run).hosts| == |s.hosts| && After(s, run).limit == s.limit
    decreases |run|
  {
    if run != [] {
      RunKeepsHosts(s, run[..|run| - 1]);
    }
  }

  /** The steps that start workers: a launch, and replacements without one. */
  predicate Starts(a: Action) { a.Launch? || (a.Reconcile? && a.count > 0) }

  lemma QuietTotal(s: System, a: Action)
    requires Enabled(s, a) && !Starts(a)
    ensures TotalWorkers(Next(s, a)) <= TotalWorkers(s)
  {
    hide Permitted, PendingObserved, Reservation, RecordOf;
    assert Workers(NextHost(s, a)) <= Workers(s.hosts[a.h]);
    SumSeqMonotone(WorkerCounts(Next(s, a).hosts), WorkerCounts(s.hosts));
  }

  lemma WorkersBounded(s: System, l: Ledger)
    requires Inv(s, l)
    ensures TotalWorkers(s) <= SumSeq(l.bound)
  {
    forall h | 0 <= h < |s.hosts| ensures Workers(s.hosts[h]) <= l.bound[h] {
      assert HostInv(s.hosts[h], s.limit);
    }
    SumSeqMonotone(WorkerCounts(s.hosts), l.bound);
  }

  lemma StepTotal(s: System, l: Ledger, a: Action)
    requires Inv(s, l) && Enabled(s, a) && Sound(s, a)
    ensures Starts(a) ==> TotalWorkers(Next(s, a)) <= s.limit
    ensures !Starts(a) ==> TotalWorkers(Next(s, a)) <= TotalWorkers(s)
  {
    if Starts(a) {
      assert HostInv(s.hosts[a.h], s.limit);
      assert s.hosts[a.h].pending.Some? && l.stamp > 0;
      hide HostInv, ReadsCover;
      QuietStepKeepsInv(s, l, a);
      WorkersBounded(Next(s, a), l);
    } else {
      QuietTotal(s, a);
    }
  }

  /** No launch and no replacement of any sound run takes the hosts together past
      the limit, and no other step adds a worker. */
  lemma LaunchesStayInsideLimit(s: System, run: seq<Action>, a: Action)
    requires Init(s) && Runs(s, run) && SoundRun(s, run)
    requires Enabled(After(s, run), a) && Sound(After(s, run), a)
    ensures Starts(a) ==> TotalWorkers(Next(After(s, run), a)) <= s.limit
    ensures !Starts(a) ==> TotalWorkers(Next(After(s, run), a)) <= TotalWorkers(After(s, run))
  {
    RunKeepsHosts(s, run);
    var l := RunKeepsInv(s, run);
    StepTotal(After(s, run), l, a);
  }

  /** A total that starts inside the limit stays there; one that starts above never grows. */
  lemma {:induction false} TotalNeverGrowsPastLimit(s: System, run: seq<Action>)
    requires Init(s) && Runs(s, run) && SoundRun(s, run)
    ensures TotalWorkers(After(s, run)) <= Max(TotalWorkers(s), s.limit)
    decreases |run|
  {
    if run != [] {
      var n := |run| - 1;
      TotalNeverGrowsPastLimit(s, run[..n]);
      LaunchesStayInsideLimit(s, run[..n], run[n]);
    }
  }

  // ---- what the hypotheses and the atomic read are worth ----

  lemma Extend(s: System, run: seq<Action>, a: Action)
    requires Runs(s, run) && Enabled(After(s, run), a)
    ensures Runs(s, run + [a]) && After(s, run + [a]) == Next(After(s, run), a)
  {
    assert (run + [a])[..|run|] == run;
  }

  lemma RunOn(s: System, run: seq<Action>, t: System, a: Action, longer: seq<Action>)
    requires Runs(s, run) && After(s, run) == t && Enabled(t, a) && longer == run + [a]
    ensures Runs(s, longer) && After(s, longer) == Next(t, a)
  {
    hide Enabled, Next;
    Extend(s, run, a);
  }

  lemma QuietCycleStates(t: System, h: nat, t1: System, t2: System, t3: System)
    requires h < |t.hosts| && t.hosts[h].phase.Acted? && !t.hosts[h].clear
    requires t1 == Replace(t, h, t.hosts[h].(status := t.hosts[h].own, phase := Idle))
    requires t2 == Replace(t1, h, t1.hosts[h].(own := t.hosts[h].live,
                                               clear := PendingObserved(t.hosts[h].pending, t.hosts[h].live), phase := Observed))
    requires t3 == Replace(t2, h, t2.hosts[h].(phase := Acted))
    ensures Enabled(t, Report(h)) && t1 == Next(t, Report(h))
    ensures Enabled(t1, Observe(h)) && t2 == Next(t1, Observe(h))
    ensures Enabled(t2, Hold(h)) && t3 == Next(t2, Hold(h))
    ensures Enabled(t3, Report(h))
  {
  }

  /** The four quiet steps after a launch: report, recount, hold, report again. */
  lemma QuietCycleAfterLaunch(t: System, h: nat)
    requires h < |t.hosts| && t.hosts[h].phase.Acted? && !t.hosts[h].clear
    ensures var run := [Report(h), Observe(h), Hold(h), Report(h)];
            && Runs(t, run) && h < |After(t, run).hosts|
            && var x, z := t.hosts[h], After(t, run).hosts[h];
               && Workers(z) == Workers(x) && z.status == x.live && z.pending == x.pending
               && After(t, run).hosts == t.hosts[h := z]
               && After(t, run).fingerprint == t.fingerprint && After(t, run).limit == t.limit
  {
    var x := t.hosts[h];
    var t1 := Replace(t, h, x.(status := x.own, phase := Idle));
    var t2 := Replace(t1, h, t1.hosts[h].(own := x.live, clear := PendingObserved(x.pending, x.live), phase := Observed));
    var t3 := Replace(t2, h, t2.hosts[h].(phase := Acted));
    QuietCycleStates(t, h, t1, t2, t3);
    hide Enabled, PendingObserved;
    assert Runs(t, []);
    RunOn(t, [], t, Report(h), [Report(h)]);
    RunOn(t, [Report(h)], t1, Observe(h), [Report(h), Observe(h)]);
    RunOn(t, [Report(h), Observe(h)], t2, Hold(h), [Report(h), Observe(h), Hold(h)]);
    RunOn(t, [Report(h), Observe(h), Hold(h)], t3, Report(h), [Report(h), Observe(h), Hold(h), Report(h)]);
  }

  /** When the launcher's recount starts `count` workers, the host's published
      numbers cover its workers one quiet cycle later exactly if `count` is no
      more than what the gate admitted. */
  lemma LaunchCoveredExactlyWhenAdmitted(s: System, h: nat, count: nat)
    requires h < |s.hosts| && HostInv(s.hosts[h], s.limit)
    requires s.hosts[h].phase.Committed? && Enabled(s, Launch(h, count))
    ensures var launched := Next(s, Launch(h, count));
            var cycle := [Report(h), Observe(h), Hold(h), Report(h)];
            && Runs(launched, cycle) && h < |After(launched, cycle).hosts|
            && (Workers(After(launched, cycle).hosts[h]) <= Published(After(launched, cycle).hosts[h])
                <==> count <= s.hosts[h].phase.permitted)
  {
    hide Runs, After;
    QuietCycleAfterLaunch(Next(s, Launch(h, count)), h);
  }

  lemma ClearedCycleStates(t: System, h: nat, t1: System, t2: System)
    requires h < |t.hosts| && t.hosts[h].phase.Acted? && t.hosts[h].clear
    requires t1 == Replace(t, h, t.hosts[h].(status := t.hosts[h].own, phase := Clearing))
    requires t2 == Replace(t1, h, t1.hosts[h].(pending := None, phase := Idle))
    ensures Enabled(t, Report(h)) && t1 == Next(t, Report(h))
    ensures Enabled(t1, Clear(h)) && t2 == Next(t1, Clear(h))
  {
  }

  /** The same cycle for a host that clears its reservation in between. */
  lemma QuietCycleAfterClear(t: System, h: nat)
    requires h < |t.hosts| && t.hosts[h].phase.Acted? && t.hosts[h].clear
    ensures var run := [Report(h), Clear(h), Observe(h), Hold(h), Report(h)];
            && Runs(t, run) && h < |After(t, run).hosts|
            && var x, z := t.hosts[h], After(t, run).hosts[h];
               Workers(z) == Workers(x) && z.status == x.live && z.pending.None?
  {
    var x := t.hosts[h];
    var t1 := Replace(t, h, x.(status := x.own, phase := Clearing));
    var t2 := Replace(t1, h, t1.hosts[h].(pending := None, phase := Idle));
    ClearedCycleStates(t, h, t1, t2);
    var t3 := Replace(t2, h, t2.hosts[h].(own := x.live, clear := false, phase := Observed));
    var t4 := Replace(t3, h, t3.hosts[h].(phase := Acted));
    assert Enabled(t2, Observe(h)) && t3 == Next(t2, Observe(h));
    assert Enabled(t3, Hold(h)) && t4 == Next(t3, Hold(h));
    assert Enabled(t4, Report(h)) && Runs(t, []);
    hide Enabled, PendingObserved;
    RunOn(t, [], t, Report(h), [Report(h)]);
    RunOn(t, [Report(h)], t1, Clear(h), [Report(h), Clear(h)]);
    RunOn(t, [Report(h), Clear(h)], t2, Observe(h), [Report(h), Clear(h), Observe(h)]);
    RunOn(t, [Report(h), Clear(h), Observe(h)], t3, Hold(h), [Report(h), Clear(h), Observe(h), Hold(h)]);
    RunOn(t, [Report(h), Clear(h), Observe(h), Hold(h)], t4, Report(h), [Report(h), Clear(h), Observe(h), Hold(h), Report(h)]);
  }

  /** The actuator is called in cycles that were admitted nothing too, and its
      recount may start replacements there. One quiet cycle later the published
      numbers cover the host exactly if the reservation has room for them beside
      what is in flight, and, when this cycle clears it, if there were none. */
  lemma ReconcileCoveredExactly(s: System, h: nat, count: nat)
    requires h < |s.hosts| && HostInv(s.hosts[h], s.limit) && Enabled(s, Reconcile(h, count))
    ensures var x, started := s.hosts[h], Next(s, Reconcile(h, count));
            var cycle := if x.clear then [Report(h), Clear(h), Observe(h), Hold(h), Report(h)]
                         else [Report(h), Observe(h), Hold(h), Report(h)];
            && Runs(started, cycle) && h < |After(started, cycle).hosts|
            && (Workers(After(started, cycle).hosts[h]) <= Published(After(started, cycle).hosts[h])
                <==> if x.clear then count == 0 else x.inflight + count <= PendingCount(x.pending))
  {
    hide Runs, After;
    if s.hosts[h].clear {
      QuietCycleAfterClear(Next(s, Reconcile(h, count)), h);
    } else {
      QuietCycleAfterLaunch(Next(s, Reconcile(h, count)), h);
    }
  }

  /** A failed cycle publishes no worker count, so the host is covered exactly when its
      remaining reservation alone covers it: after a failed gate only if it has no
      workers, and otherwise if what it had reserved outnumbers them. */
  lemma FailedCycleCoveredExactlyByReservation(s: System, h: nat)
    requires h < |s.hosts| && HostInv(s.hosts[h], s.limit) && Enabled(s, Fail(h))
    ensures var x, y := s.hosts[h], NextHost(s, Fail(h));
            Workers(y) <= Published(y)
            <==> if x.phase.Gating? then Workers(x) == 0 else Workers(x) <= PendingCount(x.pending)
  {
    assert HostInv(s.hosts[h], s.limit);
  }

  // ---- records whose two halves are read at different moments ----

  /** A status read earlier, with the reservation of now, covers the host's claim. */
  ghost predicate StillCovers(status: nat, y: Host) {
    && Claim(y) <= status + PendingCount(y.pending)
    && (y.phase.Gating? ==> y.own <= status)
  }

  lemma CommitStillCovers(s: System, h: nat, status: nat)
    requires s.limit <= U32_MAX && Enabled(s, Settle(h)) && HostInv(s.hosts[h], s.limit) && Permitted(s, h) > 0
    requires StillCovers(status, s.hosts[h])
    ensures StillCovers(status, NextHost(s, Settle(h)))
  {
    CommitKeepsHost(s, h);
    hide Permitted, PendingObserved, RecordOf, Pulled, PeersCommitted;
  }

  lemma StepStillCovers(s: System, l: Ledger, a: Action, status: nat)
    requires Inv(s, l) && Enabled(s, a) && Sound(s, a) && !a.Clear?
    requires StillCovers(status, s.hosts[a.h])
    ensures StillCovers(status, NextHost(s, a))
  {
    assert HostInv(s.hosts[a.h], s.limit);
    if a.Settle? && Permitted(s, a.h) > 0 {
      CommitStillCovers(s, a.h, status);
    } else {
      hide Permitted, PendingObserved, RecordOf, Pulled, PeersCommitted;
    }
  }

  lemma {:induction false} RunStillCovers(s: System, l: Ledger, run: seq<Action>, h: nat, status: nat) returns (l': Ledger)
    requires Inv(s, l) && Runs(s, run) && SoundRun(s, run) && h < |s.hosts| && Clear(h) !in run
    requires StillCovers(status, s.hosts[h])
    ensures h < |After(s, run).hosts| && Inv(After(s, run), l') && StillCovers(status, After(s, run).hosts[h])
    decreases |run|
  {
    if run == [] {
      l' := l;
    } else {
      var n := |run| - 1;
      var before := After(s, run[..n]);
      l' := RunStillCovers(s, l, run[..n], h, status);
      if run[n].h == h {
        StepStillCovers(before, l', run[n], status);
      }
      hide Enabled, NextHost, Sound, HostInv;
      l' := StepKeepsInv(before, l', run[n]);
    }
  }

  lemma LaterReadCovers(s: System, l: Ledger, run: seq<Action>, h: nat, x: Host, fingerprint: string)
    requires Inv(s, l) && Runs(s, run) && SoundRun(s, run) && h < |s.hosts| && Clear(h) !in run
    requires StillCovers(x.status, s.hosts[h])
    ensures h < |After(s, run).hosts|
    ensures var z := After(s, run).hosts[h];
            Workers(z) <= RecordExact(TornRecord(x, z, fingerprint), fingerprint)
  {
    var l' := RunStillCovers(s, l, run, h, x.status);
    var z := After(s, run).hosts[h];
    assert HostInv(z, After(s, run).limit);
    hide Runs, After, SoundRun, RecordExact, TornRecord, Inv;
    TornRecordSum(x, z, fingerprint);
  }

  /** A record torn over any number of steps of any hosts, status read first,
      covers the host as long as it clears no reservation in between. */
  lemma TornReadCoversWithoutClear(s: System, l: Ledger, run: seq<Action>, h: nat)
    requires Inv(s, l) && Runs(s, run) && SoundRun(s, run) && h < |s.hosts| && Clear(h) !in run
    ensures h < |After(s, run).hosts|
    ensures var x, z := s.hosts[h], After(s, run).hosts[h];
            Workers(z) <= RecordExact(TornRecord(x, z, s.fingerprint), s.fingerprint)
  {
    OwnStatusCovers(s, l, h);
    LaterReadCovers(s, l, run, h, s.hosts[h], s.fingerprint);
  }

  lemma OwnStatusCovers(s: System, l: Ledger, h: nat)
    requires Inv(s, l) && h < |s.hosts|
    ensures StillCovers(s.hosts[h].status, s.hosts[h])
  {
    assert HostInv(s.hosts[h], s.limit);
    PublishedCoversClaim(s.hosts[h], s.limit);
  }

  lemma ClearedStillCovers(t: System, l: Ledger, h: nat, status: nat)
    requires Inv(t, l) && Enabled(t, Clear(h))
    ensures Inv(Next(t, Clear(h)), l)
    ensures var y := Next(t, Clear(h)).hosts[h];
            && Workers(y) == Workers(t.hosts[h]) && y.pending.None?
            && (StillCovers(status, y) <==> Workers(t.hosts[h]) <= status)
  {
    QuietStepKeepsInv(t, l, Clear(h));
  }

  /** A record whose status was read before a run that ends with a clear, and whose
      pending launches are read then or any number of steps later, covers the host
      in every such run exactly when the old status covered it at the clear. */
  lemma TornReadAcrossClearExactly(s: System, l: Ledger, run: seq<Action>, h: nat)
    requires Inv(s, l) && Runs(s, run) && SoundRun(s, run) && h < |s.hosts| && Clear(h) !in run
    requires Enabled(After(s, run), Clear(h))
    ensures var cleared := Next(After(s, run), Clear(h));
            (forall later ::
               Runs(cleared, later) && SoundRun(cleared, later) && Clear(h) !in later ==>
                 && h < |After(cleared, later).hosts|
                 && var z := After(cleared, later).hosts[h];
                    Workers(z) <= RecordExact(TornRecord(s.hosts[h], z, s.fingerprint), s.fingerprint))
            <==> Workers(After(s, run).hosts[h]) <= s.hosts[h].status
  {
    var x, t := s.hosts[h], After(s, run);
    OwnStatusCovers(s, l, h);
    var l' := RunStillCovers(s, l, run, h, x.status);
    var cleared := Next(t, Clear(h));
    EmptyRun(cleared);
    assert SoundRun(cleared, []);
    hide Enabled, Next, Runs, SoundRun, StillCovers, RecordExact, TornRecord, Inv, After;
    ClearedStillCovers(t, l', h, x.status);
    TornRecordSum(x, cleared.hosts[h], s.fingerprint);
    if Workers(t.hosts[h]) <= x.status {
      forall later | Runs(cleared, later) && SoundRun(cleared, later) && Clear(h) !in later
        ensures h < |After(cleared, later).hosts|
        ensures Workers(After(cleared, later).hosts[h])
                <= RecordExact(TornRecord(x, After(cleared, later).hosts[h], s.fingerprint), s.fingerprint)
      {
        LaterReadCovers(cleared, l', later, h, x, s.fingerprint);
      }
    }
  }

  /** A record torn across the status write and the clear that follows it covers
      the host exactly when the old status already did. The three untorn reads
      around those two steps always cover it. */
  lemma TornReadCoversExactlyOnOldStatus(s: System, h: nat)
    requires h < |s.hosts| && HostInv(s.hosts[h], s.limit)
    requires s.hosts[h].phase.Acted? && s.hosts[h].clear
    ensures var run := [Report(h), Clear(h)];
            && Runs(s, run) && h < |After(s, run).hosts|
            && var x, z := s.hosts[h], After(s, run).hosts[h];
               && Workers(z) <= Published(z)
               && (Workers(z) <= RecordExact(TornRecord(x, z, s.fingerprint), s.fingerprint)
                   <==> Workers(z) <= x.status)
  {
    Extend(s, [], Report(h));
    Extend(s, [] + [Report(h)], Clear(h));
    assert [] + [Report(h)] + [Clear(h)] == [Report(h), Clear(h)];
    TornRecordSum(s.hosts[h], After(s, [Report(h), Clear(h)]).hosts[h], s.fingerprint);
  }

  // ---- a reservation that is never seen in full ----

  /** Between cycles, with a reservation the host may or may not come to see. */
  predicate Waiting(x: Host, count: nat, baseline: nat) {
    && x.phase.Idle? && x.pending == Some(Reserved(count, baseline))
    && 0 < count && baseline + count <= U32_MAX
  }

  /** The reservation is open, and no count the host may take reaches it. */
  ghost predicate Stuck(x: Host, count: nat, baseline: nat) {
    && x.pending == Some(Reserved(count, baseline))
    && Workers(x) < baseline + count
    && (x.phase.Idle? || x.phase.Observed? || x.phase.Acted?)
    && (x.phase.Observed? ==> x.own + x.inflight < baseline + count)
    && (!x.phase.Idle? ==> !x.clear)
  }

  lemma StepStaysStuck(s: System, a: Action, count: nat, baseline: nat)
    requires Enabled(s, a) && Stuck(s.hosts[a.h], count, baseline)
    requires 0 < count && baseline + count <= U32_MAX
    ensures Stuck(NextHost(s, a), count, baseline)
  {
  }

  lemma {:induction false} RunStaysStuck(s: System, run: seq<Action>, h: nat, count: nat, baseline: nat)
    requires Runs(s, run) && h < |s.hosts| && Stuck(s.hosts[h], count, baseline)
    requires 0 < count && baseline + count <= U32_MAX
    ensures h < |After(s, run).hosts| && Stuck(After(s, run).hosts[h], count, baseline)
    decreases |run|
  {
    if run != [] {
      var n := |run| - 1;
      RunStaysStuck(s, run[..n], h, count, baseline);
      if run[n].h == h {
        StepStaysStuck(After(s, run[..n]), run[n], count, baseline);
      }
    }
  }

  /** Everything in flight appears. */
  lemma {:induction false} AllAppear(s: System, h: nat) returns (run: seq<Action>)
    requires h < |s.hosts| && s.hosts[h].phase.Idle?
    ensures Runs(s, run) && h < |After(s, run).hosts|
    ensures After(s, run).hosts[h] == s.hosts[h].(live := Workers(s.hosts[h]), inflight := 0)
    decreases s.hosts[h].inflight
  {
    EmptyRun(s);
    if s.hosts[h].inflight == 0 {
      run := [];
    } else {
      var later := AllAppear(Next(s, Appear(h)), h);
      RunOn(s, [], s, Appear(h), [Appear(h)]);
      RunsConcat(s, [Appear(h)], later);
      run := [Appear(h)] + later;
    }
  }

  lemma SeenInFull(s: System, h: nat, count: nat, baseline: nat) returns (run: seq<Action>)
    requires h < |s.hosts| && Waiting(s.hosts[h], count, baseline) && baseline + count <= s.hosts[h].live
    ensures Runs(s, run) && h < |After(s, run).hosts| && After(s, run).hosts[h].pending.None?
  {
    var x := s.hosts[h];
    var s1 := Next(s, Observe(h));
    var s2 := Next(s1, Hold(h));
    ClearedCycleStates(s2, h, Next(s2, Report(h)), Next(Next(s2, Report(h)), Clear(h)));
    EmptyRun(s);
    RunOn(s, [], s, Observe(h), [Observe(h)]);
    RunOn(s, [Observe(h)], s1, Hold(h), [Observe(h), Hold(h)]);
    RunOn(s, [Observe(h), Hold(h)], s2, Report(h), [Observe(h), Hold(h), Report(h)]);
    run := [Observe(h), Hold(h), Report(h), Clear(h)];
    RunOn(s, [Observe(h), Hold(h), Report(h)], Next(s2, Report(h)), Clear(h), run);
  }

  /** A reservation can still be cleared exactly when running and in-flight workers
      reach what it waits for: one of them that dies or never appears before it is
      counted leaves the reservation, and its share of the limit, taken for good. */
  lemma ReservationClearsExactly(s: System, h: nat, count: nat, baseline: nat)
    requires h < |s.hosts| && Waiting(s.hosts[h], count, baseline)
    ensures (exists run :: Runs(s, run) && h < |After(s, run).hosts| && After(s, run).hosts[h].pending.None?)
            <==> baseline + count <= Workers(s.hosts[h])
  {
    hide Next, Enabled;
    if baseline + count <= Workers(s.hosts[h]) {
      var appear := AllAppear(s, h);
      var clear := SeenInFull(After(s, appear), h, count, baseline);
      RunsConcat(s, appear, clear);
      assert Runs(s, appear + clear);
    } else {
      forall run | Runs(s, run) ensures h < |After(s, run).hosts| && After(s, run).hosts[h].pending.Some? {
        RunStaysStuck(s, run, h, count, baseline);
      }
    }
  }

  /** Until then the host opens no gate, and its peers go on counting the reservation. */
  lemma StuckHostNeverGates(s: System, h: nat, count: nat, baseline: nat, run: seq<Action>)
    requires h < |s.hosts| && Waiting(s.hosts[h], count, baseline) && Workers(s.hosts[h]) < baseline + count
    requires Runs(s, run)
    ensures h < |After(s, run).hosts| && count <= Published(After(s, run).hosts[h])
    ensures forall want, total :: !Enabled(After(s, run), Publish(h, want, total))
  {
    RunStaysStuck(s, run, h, count, baseline);
  }

  lemma OnePeerCommitted(record: PeerRecord, fingerprint: string)
    ensures PeersCommitted([record], fingerprint) == Min(RecordExact(record, fingerprint), U32_MAX)
  {
    PeersCommittedIsCapped([record], fingerprint);
    assert RecordsExact([record], fingerprint) == [] + [RecordExact(record, fingerprint)];
    SumSeqSnoc([], RecordExact(record, fingerprint));
  }

  /** What a lone gate against one peer admits when it asks for everything. */
  lemma LoneGateAdmitsRoom(record: PeerRecord, limit: nat, fingerprint: string)
    requires RecordExact(record, fingerprint) < limit <= U32_MAX
    ensures Pulled(map[0 := record], 1, 2) == [record]
    ensures PermittedLaunch(limit, 0, 0, PeersCommitted([record], fingerprint), limit)
            == limit - RecordExact(record, fingerprint)
  {
    assert Pulled(map[0 := record], 1, 1) == Pulled(map[0 := record], 1, 0) + [record];
    OnePeerCommitted(record, fingerprint);
  }

  lemma OpenLoneGate(s: System) returns (run: seq<Action>)
    requires |s.hosts| == 2 && s.hosts[1].phase.Idle? && s.hosts[1].pending.None?
    requires s.limit <= U32_MAX
    ensures run == [Observe(1), Publish(1, s.limit, s.limit), Pull(1, 0)] && Runs(s, run)
    ensures var x := s.hosts[1];
            After(s, run).hosts == [s.hosts[0],
              x.(own := x.live, clear := false, pending := Some(Reserved(s.limit, x.live)),
                 phase := Gating(None, s.limit, s.limit, s.clock + 1, map[0 := RecordOf(s.hosts[0], s.fingerprint)]))]
    ensures After(s, run).fingerprint == s.fingerprint
  {
    run := [] + [Observe(1)];
    Extend(s, [], Observe(1));
    Extend(s, run, Publish(1, s.limit, s.limit));
    run := run + [Publish(1, s.limit, s.limit)];
    Extend(s, run, Pull(1, 0));
    run := run + [Pull(1, 0)];
  }

  ghost predicate LoneGateOpen(t: System) {
    && |t.hosts| == 2 && t.limit <= U32_MAX && Published(t.hosts[0]) < t.limit
    && var y := t.hosts[1];
       && Workers(y) == 0 && y.own == 0
       && y.phase.Gating? && y.phase.previous == None && y.phase.want == y.phase.total == t.limit
       && y.phase.seen == map[0 := RecordOf(t.hosts[0], t.fingerprint)]
  }

  lemma LoneGatePermits(t: System)
    requires LoneGateOpen(t)
    ensures PulledAll(t.hosts[1], 1, 2) && Permitted(t, 1) == t.limit - Published(t.hosts[0])
  {
    TornRecordSum(t.hosts[0], t.hosts[0], t.fingerprint);
    LoneGateAdmitsRoom(RecordOf(t.hosts[0], t.fingerprint), t.limit, t.fingerprint);
  }

  lemma TwoHostTotal(t: System)
    requires |t.hosts| == 2
    ensures TotalWorkers(t) == Workers(t.hosts[0]) + Workers(t.hosts[1])
  {
    assert WorkerCounts(t.hosts) == [] + [Workers(t.hosts[0])] + [Workers(t.hosts[1])];
    SumSeqSnoc([], Workers(t.hosts[0]));
    SumSeqSnoc([] + [Workers(t.hosts[0])], Workers(t.hosts[1]));
  }

  lemma CloseLoneGate(t: System)
    requires LoneGateOpen(t)
    ensures var room := t.limit - Published(t.hosts[0]);
            && Enabled(t, Settle(1))
            && Enabled(Next(t, Settle(1)), Launch(1, room))
            && TotalWorkers(Next(Next(t, Settle(1)), Launch(1, room))) == Workers(t.hosts[0]) + room
  {
    var room := t.limit - Published(t.hosts[0]);
    LoneGatePermits(t);
    assert NextHost(t, Settle(1)).phase == Committed(room);
    TwoHostTotal(Next(Next(t, Settle(1)), Launch(1, room)));
  }

  /** The second host gates for all of the limit and launches what it is admitted. */
  function SecondGate(limit: nat, room: nat): seq<Action> {
    [Observe(1), Publish(1, limit, limit), Pull(1, 0), Settle(1), Launch(1, room)]
  }

  /** Coverage is what the limit rests on: a second host gating against a peer
      whose record leaves workers out overshoots by exactly those workers. */
  lemma OvershootIsTheUndercount(s: System)
    requires |s.hosts| == 2 && s.limit <= U32_MAX
    requires s.hosts[1].phase.Idle? && s.hosts[1].pending.None? && Workers(s.hosts[1]) == 0
    requires Published(s.hosts[0]) < s.limit
    ensures var room := s.limit - Published(s.hosts[0]);
            var run := SecondGate(s.limit, room);
            Runs(s, run) && TotalWorkers(After(s, run)) == s.limit + Workers(s.hosts[0]) - Published(s.hosts[0])
  {
    var room := s.limit - Published(s.hosts[0]);
    var run := OpenLoneGate(s);
    RunKeepsHosts(s, run);
    CloseLoneGate(After(s, run));
    Extend(s, run, Settle(1));
    Extend(s, run + [Settle(1)], Launch(1, room));
    assert run + [Settle(1)] + [Launch(1, room)]
        == [Observe(1), Publish(1, s.limit, s.limit), Pull(1, 0), Settle(1), Launch(1, room)];
  }

  // ---- the overshoot on a run from a starting state ----

  lemma {:induction false} RunsConcat(s: System, a: seq<Action>, b: seq<Action>)
    requires Runs(s, a) && Runs(After(s, a), b)
    ensures Runs(s, a + b) && After(s, a + b) == After(After(s, a), b)
    decreases |b|
  {
    if b == [] {
      assert a + b == a;
    } else {
      var n := |b| - 1;
      RunsConcat(s, a, b[..n]);
      assert (a + b)[..|a + b| - 1] == a + b[..n];
    }
  }

  /** Two idle hosts that share a limit of two; the first runs one worker and reports it. */
  function OneWorker(fingerprint: string): System {
    System([Host(1, 0, 1, None, 0, false, Idle), Host(0, 0, 0, None, 0, false, Idle)], 1, fingerprint, 2)
  }

  /** The first host in the course of the run below. */
  function FirstHost(live: nat, inflight: nat, phase: Phase): Host {
    Host(live, inflight, 1, Some(Reserved(1, 1)), 1, false, phase)
  }

  function WithFirst(fingerprint: string, clock: nat, x: Host): System {
    System([x, Host(0, 0, 0, None, 0, false, Idle)], clock, fingerprint, 2)
  }

  function PulledSecond(fingerprint: string): map<nat, PeerRecord> {
    map[1 := RecordOf(Host(0, 0, 0, None, 0, false, Idle), fingerprint)]
  }

  lemma FirstGateOpens(s: System)
    requires s == OneWorker(s.fingerprint)
    ensures var run := [Observe(0), Publish(0, 1, 2), Pull(0, 1)];
            && Runs(s, run)
            && After(s, run) == WithFirst(s.fingerprint, 4, FirstHost(1, 0, Gating(None, 1, 2, 2, PulledSecond(s.fingerprint))))
  {
    assert Runs(s, []) && After(s, []) == s;
    var s1 := Next(s, Observe(0));
    RunOn(s, [], s, Observe(0), [Observe(0)]);
    var s2 := Next(s1, Publish(0, 1, 2));
    RunOn(s, [Observe(0)], s1, Publish(0, 1, 2), [Observe(0), Publish(0, 1, 2)]);
    RunOn(s, [Observe(0), Publish(0, 1, 2)], s2, Pull(0, 1), [Observe(0), Publish(0, 1, 2), Pull(0, 1)]);
  }

  /** The gate admits the one launch there is room for. */
  lemma FirstGatePermits(t: System)
    requires t == WithFirst(t.fingerprint, 4, FirstHost(1, 0, Gating(None, 1, 2, 2, PulledSecond(t.fingerprint))))
    ensures PulledAll(t.hosts[0], 0, 2) && Permitted(t, 0) == 1
  {
    var record := PulledSecond(t.fingerprint)[1];
    TornRecordSum(t.hosts[1], t.hosts[1], t.fingerprint);
    OnePeerCommitted(record, t.fingerprint);
    assert Pulled(PulledSecond(t.fingerprint), 0, 1) == [];
    assert Pulled(PulledSecond(t.fingerprint), 0, 2) == [record];
  }

  lemma FirstHostSteps(t: System)
    requires t == WithFirst(t.fingerprint, 4, FirstHost(1, 0, Gating(None, 1, 2, 2, PulledSecond(t.fingerprint))))
    ensures Enabled(t, Settle(0)) && Next(t, Settle(0)) == WithFirst(t.fingerprint, 5, FirstHost(1, 0, Committed(1)))
  {
    FirstGatePermits(t);
    hide Permitted;
  }

  lemma FirstHostReplaces(fingerprint: string)
    ensures var t := WithFirst(fingerprint, 5, FirstHost(1, 0, Committed(1)));
            Enabled(t, Die(0)) && Next(t, Die(0)) == WithFirst(fingerprint, 6, FirstHost(0, 0, Committed(1)))
    ensures var t := WithFirst(fingerprint, 6, FirstHost(0, 0, Committed(1)));
            && Enabled(t, Launch(0, 2)) && !Sound(t, Launch(0, 2))
            && Next(t, Launch(0, 2)) == WithFirst(fingerprint, 7, FirstHost(0, 2, Acted))
  {
    hide Permitted;
  }

  lemma FirstHostLaunches(t: System)
    requires t == WithFirst(t.fingerprint, 4, FirstHost(1, 0, Gating(None, 1, 2, 2, PulledSecond(t.fingerprint))))
    ensures var run := [Settle(0), Die(0), Launch(0, 2)];
            && Runs(t, run) && After(t, run) == WithFirst(t.fingerprint, 7, FirstHost(0, 2, Acted))
            && Runs(t, [Settle(0), Die(0)]) && !Sound(After(t, [Settle(0), Die(0)]), Launch(0, 2))
  {
    EmptyRun(t);
    hide *;
    FirstHostSteps(t);
    FirstHostReplaces(t.fingerprint);
    var t1 := WithFirst(t.fingerprint, 5, FirstHost(1, 0, Committed(1)));
    RunOn(t, [], t, Settle(0), [Settle(0)]);
    var t2 := WithFirst(t.fingerprint, 6, FirstHost(0, 0, Committed(1)));
    RunOn(t, [Settle(0)], t1, Die(0), [Settle(0), Die(0)]);
    RunOn(t, [Settle(0), Die(0)], t2, Launch(0, 2), [Settle(0), Die(0), Launch(0, 2)]);
  }

  lemma EmptyRun(t: System)
    ensures Runs(t, []) && After(t, []) == t
  {
  }

  const OPENING: seq<Action> := [Observe(0), Publish(0, 1, 2), Pull(0, 1)]
  const LAUNCHING: seq<Action> := [Settle(0), Die(0), Launch(0, 2)]
  const QUIET: seq<Action> := [Report(0), Observe(0), Hold(0), Report(0)]

  /** What the second host meets: two workers of the first behind a published one. */
  ghost predicate Undercounted(t: System) {
    && |t.hosts| == 2 && t.limit == 2 && Workers(t.hosts[0]) == 2 && Published(t.hosts[0]) == 1
    && t.hosts[1] == Host(0, 0, 0, None, 0, false, Idle)
  }

  lemma FirstHostLaunched(s: System)
    requires s == OneWorker(s.fingerprint)
    ensures Runs(s, OPENING + LAUNCHING)
    ensures After(s, OPENING + LAUNCHING) == WithFirst(s.fingerprint, 7, FirstHost(0, 2, Acted))
    ensures var admitted := OPENING + [Settle(0), Die(0)];
            Runs(s, admitted) && !Sound(After(s, admitted), Launch(0, 2))
  {
    hide Runs, After, Sound;
    FirstGateOpens(s);
    FirstHostLaunches(After(s, OPENING));
    RunsConcat(s, OPENING, LAUNCHING);
    RunsConcat(s, OPENING, [Settle(0), Die(0)]);
  }

  lemma FirstHostSettles(s: System)
    requires s == OneWorker(s.fingerprint)
    ensures Runs(s, OPENING + LAUNCHING + QUIET) && Undercounted(After(s, OPENING + LAUNCHING + QUIET))
  {
    hide Runs, After;
    FirstHostLaunched(s);
    QuietCycleAfterLaunch(After(s, OPENING + LAUNCHING), 0);
    RunsConcat(s, OPENING + LAUNCHING, QUIET);
  }

  lemma SecondHostOvershoots(t: System, seen: nat)
    requires |t.hosts| == 2 && t.limit == 2 && Published(t.hosts[0]) == seen < 2 && Workers(t.hosts[0]) == seen + 1
    requires t.hosts[1].phase.Idle? && t.hosts[1].pending.None? && Workers(t.hosts[1]) == 0
    ensures Runs(t, SecondGate(2, 2 - seen)) && TotalWorkers(After(t, SecondGate(2, 2 - seen))) == 3
  {
    assert t.limit <= U32_MAX;
    hide *;
    OvershootIsTheUndercount(t);
  }

  lemma SecondHostFollows(t: System)
    requires Undercounted(t)
    ensures Runs(t, SecondGate(2, 1)) && TotalWorkers(After(t, SecondGate(2, 1))) == 3
  {
    hide Runs, After, TotalWorkers, SecondGate, Published;
    SecondHostOvershoots(t, 1);
  }

  lemma WholeRun(run: seq<Action>)
    requires run == OPENING + LAUNCHING + QUIET + SecondGate(2, 1)
    ensures run == [Observe(0), Publish(0, 1, 2), Pull(0, 1), Settle(0), Die(0), Launch(0, 2),
                    Report(0), Observe(0), Hold(0), Report(0),
                    Observe(1), Publish(1, 2, 2), Pull(1, 0), Settle(1), Launch(1, 1)]
    ensures run[..5] == OPENING + [Settle(0), Die(0)] && run[5] == Launch(0, 2)
  {
  }

  /** From two idle hosts with a limit of two: the first is admitted one launch beside
      its worker, the worker dies, the actuator's recount starts two, and a quiet cycle
      later the host publishes one. The second host's gate then admits a third worker. */
  lemma UnadmittedLaunchOvershoots(s: System) returns (run: seq<Action>)
    requires s == OneWorker(s.fingerprint)
    ensures Init(s) && Runs(s, run) && TotalWorkers(After(s, run)) == 3 == s.limit + 1
    ensures run == [Observe(0), Publish(0, 1, 2), Pull(0, 1), Settle(0), Die(0), Launch(0, 2),
                    Report(0), Observe(0), Hold(0), Report(0),
                    Observe(1), Publish(1, 2, 2), Pull(1, 0), Settle(1), Launch(1, 1)]
    ensures Runs(s, run[..5]) && !Sound(After(s, run[..5]), run[5])
  {
    assert Init(s) && s.limit == 2;
    hide *;
    FirstHostLaunched(s);
    FirstHostSettles(s);
    SecondHostFollows(After(s, OPENING + LAUNCHING + QUIET));
    RunsConcat(s, OPENING + LAUNCHING + QUIET, SecondGate(2, 1));
    run := OPENING + LAUNCHING + QUIET + SecondGate(2, 1);
    WholeRun(run);
  }

  // ---- the same from replacements that no gate admitted ----

  /** The first host, with its one worker or without it, in a cycle of its own. */
  function LoneHost(live: nat, inflight: nat, clear: bool, phase: Phase): Host {
    Host(live, inflight, 1, None, 1, clear, phase)
  }

  lemma LoneHostSteps(fingerprint: string)
    ensures var t := OneWorker(fingerprint);
            Enabled(t, Observe(0)) && Next(t, Observe(0)) == WithFirst(fingerprint, 2, LoneHost(1, 0, false, Observed))
    ensures var t := WithFirst(fingerprint, 2, LoneHost(1, 0, false, Observed));
            Enabled(t, Die(0)) && Next(t, Die(0)) == WithFirst(fingerprint, 3, LoneHost(0, 0, false, Observed))
    ensures var t := WithFirst(fingerprint, 3, LoneHost(0, 0, false, Observed));
            && Enabled(t, Reconcile(0, 1)) && !Sound(t, Reconcile(0, 1))
            && Next(t, Reconcile(0, 1)) == WithFirst(fingerprint, 4, LoneHost(0, 1, false, Acted))
  {
    hide Permitted;
  }

  const REPLACING: seq<Action> := [Observe(0), Die(0), Reconcile(0, 1)]

  lemma LoneHostReplaces(s: System)
    requires s == OneWorker(s.fingerprint)
    ensures Runs(s, REPLACING) && After(s, REPLACING) == WithFirst(s.fingerprint, 4, LoneHost(0, 1, false, Acted))
    ensures Runs(s, [Observe(0), Die(0)]) && !Sound(After(s, [Observe(0), Die(0)]), Reconcile(0, 1))
  {
    EmptyRun(s);
    LoneHostSteps(s.fingerprint);
    hide Runs, After, Enabled, Next, Sound;
    RunOn(s, [], s, Observe(0), [Observe(0)]);
    RunOn(s, [Observe(0)], WithFirst(s.fingerprint, 2, LoneHost(1, 0, false, Observed)), Die(0), [Observe(0), Die(0)]);
    RunOn(s, [Observe(0), Die(0)], WithFirst(s.fingerprint, 3, LoneHost(0, 0, false, Observed)), Reconcile(0, 1), REPLACING);
  }

  /** What the second host meets here: one worker that nothing accounts for. */
  ghost predicate Unpublished(t: System) {
    && |t.hosts| == 2 && t.limit == 2 && Workers(t.hosts[0]) == 1 && Published(t.hosts[0]) == 0
    && t.hosts[1] == Host(0, 0, 0, None, 0, false, Idle)
  }

  lemma LoneHostSettles(s: System)
    requires s == OneWorker(s.fingerprint)
    ensures Runs(s, REPLACING + QUIET) && Unpublished(After(s, REPLACING + QUIET))
  {
    hide Runs, After;
    LoneHostReplaces(s);
    QuietCycleAfterLaunch(After(s, REPLACING), 0);
    RunsConcat(s, REPLACING, QUIET);
  }

  lemma SecondHostFillsUp(t: System)
    requires Unpublished(t)
    ensures Runs(t, SecondGate(2, 2)) && TotalWorkers(After(t, SecondGate(2, 2))) == 3
  {
    hide Runs, After, TotalWorkers, SecondGate, Published;
    SecondHostOvershoots(t, 0);
  }

  lemma ReplacingRun(run: seq<Action>)
    requires run == REPLACING + QUIET + SecondGate(2, 2)
    ensures run == [Observe(0), Die(0), Reconcile(0, 1), Report(0), Observe(0), Hold(0), Report(0),
                    Observe(1), Publish(1, 2, 2), Pull(1, 0), Settle(1), Launch(1, 2)]
    ensures run[..2] == [Observe(0), Die(0)] && run[2] == Reconcile(0, 1)
  {
  }

  /** From the same start, without any gate of the first host: its worker dies after
      the count, the actuator of a cycle that holds starts another, and a quiet cycle
      later the host publishes none. The second host's gate then admits two more. */
  lemma HoldReplacementOvershoots(s: System) returns (run: seq<Action>)
    requires s == OneWorker(s.fingerprint)
    ensures Init(s) && Runs(s, run) && TotalWorkers(After(s, run)) == 3 == s.limit + 1
    ensures run == [Observe(0), Die(0), Reconcile(0, 1), Report(0), Observe(0), Hold(0), Report(0),
                    Observe(1), Publish(1, 2, 2), Pull(1, 0), Settle(1), Launch(1, 2)]
    ensures Runs(s, run[..2]) && !Sound(After(s, run[..2]), run[2])
  {
    assert Init(s) && s.limit == 2;
    hide *;
    LoneHostReplaces(s);
    LoneHostSettles(s);
    SecondHostFillsUp(After(s, REPLACING + QUIET));
    RunsConcat(s, REPLACING + QUIET, SecondGate(2, 2));
    run := REPLACING + QUIET + SecondGate(2, 2);
    ReplacingRun(run);
  }

  // ---- the other conditions, failing ----

  lemma LoneHostFails(fingerprint: string)
    ensures var t := WithFirst(fingerprint, 2, LoneHost(1, 0, false, Observed));
            && Enabled(t, Fail(0))
            && Next(t, Fail(0)) == WithFirst(fingerprint, 3, Host(1, 0, 0, None, 1, false, Idle))
  {
    hide Permitted;
  }

  const FAILING: seq<Action> := [Observe(0), Fail(0)]

  lemma FailedRun(s: System)
    requires s == OneWorker(s.fingerprint)
    ensures Runs(s, FAILING) && After(s, FAILING) == WithFirst(s.fingerprint, 3, Host(1, 0, 0, None, 1, false, Idle))
  {
    EmptyRun(s);
    LoneHostSteps(s.fingerprint);
    LoneHostFails(s.fingerprint);
    hide Runs, After, Enabled, Next;
    RunOn(s, [], s, Observe(0), [Observe(0)]);
    RunOn(s, [Observe(0)], WithFirst(s.fingerprint, 2, LoneHost(1, 0, false, Observed)), Fail(0), FAILING);
  }

  /** One worker, no reservation, and a cycle that fails: the host publishes nothing. */
  lemma FailedCycleUncovers(s: System)
    requires s == OneWorker(s.fingerprint)
    ensures Init(s) && Runs(s, FAILING) && |After(s, FAILING).hosts| == 2
    ensures Workers(After(s, FAILING).hosts[0]) == 1 && Published(After(s, FAILING).hosts[0]) == 0
  {
    assert Init(s);
    hide Runs, After, Init;
    FailedRun(s);
  }

  lemma TornHostSteps(fingerprint: string, clock: nat)
    ensures var t := WithFirst(fingerprint, clock, Host(2, 0, 1, Some(Reserved(1, 1)), 2, true, Acted));
            && Enabled(t, Report(0))
            && Next(t, Report(0)) == WithFirst(fingerprint, clock + 1, Host(2, 0, 2, Some(Reserved(1, 1)), 2, true, Clearing))
    ensures var t := WithFirst(fingerprint, clock, Host(2, 0, 2, Some(Reserved(1, 1)), 2, true, Clearing));
            && Enabled(t, Clear(0))
            && Next(t, Clear(0)) == WithFirst(fingerprint, clock + 1, Host(2, 0, 2, None, 2, true, Idle))
    ensures HostInv(Host(2, 0, 1, Some(Reserved(1, 1)), 2, true, Acted), 2)
  {
    hide Permitted;
  }

  const TEARING: seq<Action> := [Report(0), Clear(0)]

  lemma TornRun(s: System)
    requires s == WithFirst(s.fingerprint, s.clock, Host(2, 0, 1, Some(Reserved(1, 1)), 2, true, Acted))
    ensures Runs(s, TEARING) && After(s, TEARING) == WithFirst(s.fingerprint, s.clock + 2, Host(2, 0, 2, None, 2, true, Idle))
  {
    EmptyRun(s);
    TornHostSteps(s.fingerprint, s.clock);
    TornHostSteps(s.fingerprint, s.clock + 1);
    hide Runs, After, Enabled, Next;
    RunOn(s, [], s, Report(0), [Report(0)]);
    RunOn(s, [Report(0)], Next(s, Report(0)), Clear(0), TEARING);
  }

  /** A launched worker has become observable and the status on file is older: the
      record that is torn across report and clear leaves that worker out. */
  lemma TornReadUncovers(s: System)
    requires s == WithFirst(s.fingerprint, s.clock, Host(2, 0, 1, Some(Reserved(1, 1)), 2, true, Acted))
    ensures HostInv(s.hosts[0], s.limit) && Runs(s, TEARING) && |After(s, TEARING).hosts| == 2
    ensures Workers(After(s, TEARING).hosts[0]) == 2
    ensures RecordExact(TornRecord(s.hosts[0], After(s, TEARING).hosts[0], s.fingerprint), s.fingerprint) == 1
  {
    TornHostSteps(s.fingerprint, s.clock);
    hide Runs, After, HostInv, Enabled, Next, RecordExact;
    TornRun(s);
    TornRecordSum(s.hosts[0], After(s, TEARING).hosts[0], s.fingerprint);
  }

  lemma FizzleSteps(fingerprint: string)
    ensures var t := WithFirst(fingerprint, 5, FirstHost(1, 0, Committed(1)));
            Enabled(t, Launch(0, 1)) && Sound(t, Launch(0, 1)) && Next(t, Launch(0, 1)) == WithFirst(fingerprint, 6, FirstHost(1, 1, Acted))
    ensures var t := WithFirst(fingerprint, 6, FirstHost(1, 1, Acted));
            Enabled(t, Fizzle(0)) && Next(t, Fizzle(0)) == WithFirst(fingerprint, 7, FirstHost(1, 0, Acted))
    ensures var t := WithFirst(fingerprint, 7, FirstHost(1, 0, Acted));
            Enabled(t, Report(0)) && Next(t, Report(0)) == WithFirst(fingerprint, 8, FirstHost(1, 0, Idle))
  {
    hide Permitted;
  }

  const FIZZLING: seq<Action> := [Settle(0), Launch(0, 1), Fizzle(0), Report(0)]

  lemma FirstLaunchFizzles(t: System)
    requires t == WithFirst(t.fingerprint, 4, FirstHost(1, 0, Gating(None, 1, 2, 2, PulledSecond(t.fingerprint))))
    ensures Runs(t, FIZZLING) && SoundRun(t, FIZZLING)
    ensures After(t, FIZZLING) == WithFirst(t.fingerprint, 8, FirstHost(1, 0, Idle))
  {
    EmptyRun(t);
    FirstHostSteps(t);
    FizzleSteps(t.fingerprint);
    var t1 := WithFirst(t.fingerprint, 5, FirstHost(1, 0, Committed(1)));
    var t2 := WithFirst(t.fingerprint, 6, FirstHost(1, 1, Acted));
    var t3 := WithFirst(t.fingerprint, 7, FirstHost(1, 0, Acted));
    assert SoundRun(t, []);
    assert Sound(t, Settle(0)) && Sound(t2, Fizzle(0)) && Sound(t3, Report(0));
    hide *;
    SoundOn(t, [], t, Settle(0), [Settle(0)]);
    SoundOn(t, [Settle(0)], t1, Launch(0, 1), [Settle(0), Launch(0, 1)]);
    SoundOn(t, [Settle(0), Launch(0, 1)], t2, Fizzle(0), [Settle(0), Launch(0, 1), Fizzle(0)]);
    SoundOn(t, [Settle(0), Launch(0, 1), Fizzle(0)], t3, Report(0), FIZZLING);
  }

  lemma SoundOn(s: System, run: seq<Action>, t: System, a: Action, longer: seq<Action>)
    requires Runs(s, run) && After(s, run) == t && Enabled(t, a) && longer == run + [a]
    requires SoundRun(s, run) && Sound(t, a)
    ensures Runs(s, longer) && After(s, longer) == Next(t, a) && SoundRun(s, longer)
  {
    hide Enabled, Next, Sound;
    RunOn(s, run, t, a, longer);
    assert longer[..|run|] == run;
  }

  lemma {:induction false} SoundWithoutStarts(s: System, run: seq<Action>)
    requires Runs(s, run) && forall a :: a in run ==> !a.Fail? && !a.Launch? && !a.Reconcile?
    ensures SoundRun(s, run)
    decreases |run|
  {
    if run != [] {
      var n := |run| - 1;
      hide After, Enabled;
      SoundWithoutStarts(s, run[..n]);
      assert run[n] in run;
    }
  }

  lemma {:induction false} SoundConcat(s: System, a: seq<Action>, b: seq<Action>)
    requires Runs(s, a) && SoundRun(s, a) && Runs(After(s, a), b) && SoundRun(After(s, a), b)
    ensures Runs(s, a + b) && After(s, a + b) == After(After(s, a), b) && SoundRun(s, a + b)
    decreases |b|
  {
    RunsConcat(s, a, b);
    hide Enabled, Next, Sound;
    if b == [] {
      assert a + b == a;
    } else {
      var n := |b| - 1;
      SoundConcat(s, a, b[..n]);
      assert (a + b)[..|a + b| - 1] == a + b[..n] && (a + b)[|a + b| - 1] == b[n];
    }
  }

  /** A sound run from a starting state on which the one admitted worker is lost
      before it is seen: the host waits for two workers and has one, for good. */
  lemma LostLaunchSticks(s: System)
    requires s == OneWorker(s.fingerprint)
    ensures Init(s) && Runs(s, OPENING + FIZZLING) && SoundRun(s, OPENING + FIZZLING)
    ensures After(s, OPENING + FIZZLING) == WithFirst(s.fingerprint, 8, FirstHost(1, 0, Idle))
    ensures Waiting(FirstHost(1, 0, Idle), 1, 1) && Workers(FirstHost(1, 0, Idle)) == 1
  {
    assert Init(s);
    assert Waiting(FirstHost(1, 0, Idle), 1, 1);
    hide Init, Runs, After, SoundRun, Waiting;
    FirstGateOpens(s);
    SoundWithoutStarts(s, OPENING);
    FirstLaunchFizzles(After(s, OPENING));
    SoundConcat(s, OPENING, FIZZLING);
  }
}
