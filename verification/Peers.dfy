/** PeerTable of src/federation.rs: what a host holds of its peers, aged on its own
    monotonic clock. Times are nanoseconds. */
module Peers {
  import opened Common

  const CLOCK_SKEW_SECONDS: int := 300
  const SECOND: int := 1_000_000_000

  /** A peer's record: who wrote it, when by its own clock, and per account the
      governed workers of each pool. */
  datatype Record = Record(host: Name, observedAt: int, recordSeq: nat, accounts: map<Name, seq<nat>>)

  datatype PullError = Transport | Unusable

  datatype Rejection = FetchFailed(source: PullError) | Unconfigured | HostMismatch(found: Name) | ClockSkew(aheadBy: int)

  datatype Moment = Moment(monotonic: int, wall: int)

  datatype Freshness = Fresh | Stale | Expired

  datatype Entry = Entry(record: Option<Record>, receivedAt: Option<int>, announced: bool)

  datatype Event = PeerExpired(host: Name, lastSeq: Option<nat>, at: int)

  datatype Bounds = Bounds(startedAt: int, staleAfter: int, expiry: int)
  {
    predicate Valid() { 0 < staleAfter < expiry }
  }

  datatype Table = Table(entries: map<Name, Entry>, events: seq<Event>)

  // ---- aging ----

  function Age(b: Bounds, e: Entry, now: Moment): int {
    Max(0, now.monotonic - if e.receivedAt.Some? then e.receivedAt.value else b.startedAt)
  }

  function Classify(b: Bounds, e: Entry, now: Moment): Freshness {
    if Age(b, e, now) >= b.expiry then Expired
    else if e.receivedAt.None? || Age(b, e, now) > b.staleAfter then Stale
    else Fresh
  }

  /** Fresh turns stale or expired, stale turns expired, and nothing turns back. */
  predicate OnlyFalls(before: Freshness, after: Freshness) {
    (after.Fresh? ==> before.Fresh?) && (before.Expired? ==> after.Expired?)
  }

  /** Seconds ahead of the receiver's wall clock, toward zero. */
  function AheadBy(record: Record, now: Moment): int {
    var d := record.observedAt - now.wall;
    if d >= 0 then d / SECOND else -(-d / SECOND)
  }

  /** Why an offered record is refused, in the order the reasons are checked. */
  function Refusal(t: Table, peer: Name, fetch: Result<Record, PullError>, now: Moment): Option<Rejection> {
    if fetch.Err? then Some(FetchFailed(fetch.error))
    else if peer !in t.entries then Some(Unconfigured)
    else if fetch.value.host != peer then Some(HostMismatch(fetch.value.host))
    else if AheadBy(fetch.value, now) > CLOCK_SKEW_SECONDS then Some(ClockSkew(AheadBy(fetch.value, now)))
    else None
  }

  /** In the record's own figures: accepted exactly when it was fetched, from a configured
      peer, written by that peer, and less than 301 seconds ahead of the wall clock. */
  lemma AcceptedExactly(t: Table, peer: Name, fetch: Result<Record, PullError>, now: Moment)
    ensures Refusal(t, peer, fetch, now).None?
            <==> && fetch.Ok? && peer in t.entries && fetch.value.host == peer
                 && fetch.value.observedAt - now.wall < 301 * 1_000_000_000
    ensures fetch.Err? <==> Refusal(t, peer, fetch, now) == Some(FetchFailed(if fetch.Err? then fetch.error else Transport))
    ensures fetch.Ok? && peer !in t.entries <==> Refusal(t, peer, fetch, now) == Some(Unconfigured)
    ensures fetch.Ok? && peer in t.entries && fetch.value.host != peer <==>
            fetch.Ok? && Refusal(t, peer, fetch, now) == Some(HostMismatch(fetch.value.host))
    ensures fetch.Ok? && peer in t.entries && fetch.value.host == peer && 301 * 1_000_000_000 <= fetch.value.observedAt - now.wall
            ==> var r := Refusal(t, peer, fetch, now);
                && r.Some? && r.value.ClockSkew?
                && r.value.aheadBy * 1_000_000_000 <= fetch.value.observedAt - now.wall < (r.value.aheadBy + 1) * 1_000_000_000
  {
  }

  function Ingested(t: Table, peer: Name, fetch: Result<Record, PullError>, now: Moment): Table {
    if Refusal(t, peer, fetch, now).Some? then t
    else t.(entries := t.entries[peer := Entry(Some(fetch.value), Some(now.monotonic), false)])
  }

  function ExpiryEvent(host: Name, e: Entry, now: Moment): Event {
    PeerExpired(host, if e.record.Some? then Some(e.record.value.recordSeq) else None, now.wall)
  }

  predicate Announces(b: Bounds, t: Table, host: Name, now: Moment) {
    host in t.entries && Classify(b, t.entries[host], now).Expired? && !t.entries[host].announced
  }

  function Classified(b: Bounds, t: Table, host: Name, now: Moment): Table {
    if !Announces(b, t, host, now) then t
    else
      var e := t.entries[host];
      Table(t.entries[host := e.(announced := true)], t.events + [ExpiryEvent(host, e, now)])
  }

  // ---- the table ----

  function Workers(e: Entry, account: Name): nat {
    if e.record.Some? && account in e.record.value.accounts then SumSeq(e.record.value.accounts[account]) else 0
  }

  /** The same peers, records and receipt times; only announcements may differ. */
  predicate SameAges(before: map<Name, Entry>, after: map<Name, Entry>) {
    && after.Keys == before.Keys
    && forall h :: h in before ==> after[h].record == before[h].record && after[h].receivedAt == before[h].receivedAt
  }

  /** Some configured peer is stale. */
  predicate SomeStale(b: Bounds, entries: map<Name, Entry>, now: Moment) {
    exists h :: h in entries && Classify(b, entries[h], now).Stale?
  }

  /** The peers of `todo` classified in ascending order, up to the first stale one. */
  function Swept(b: Bounds, t: Table, todo: set<Name>, now: Moment): Table
    decreases todo
  {
    if todo == {} then t
    else
      var h := Least(todo);
      if h in t.entries && Classify(b, t.entries[h], now).Stale? then t
      else Swept(b, Classified(b, t, h, now), todo - {h}, now)
  }

  function Sweep(b: Bounds, t: Table, now: Moment): Table { Swept(b, t, t.entries.Keys, now) }

  class PeerTable {
    const bounds: Bounds
    var entries: map<Name, Entry>
    var events: seq<Event>

    constructor (peers: set<Name>, bounds: Bounds)
      ensures this.bounds == bounds && events == [] && entries.Keys == peers
      ensures forall h :: h in entries ==> entries[h] == Entry(None, None, false)
    {
      this.bounds := bounds;
      entries := map h | h in peers :: Entry(None, None, false);
      events := [];
    }

    function View(): Table
      reads this
    {
      Table(entries, events)
    }

    /** A refused fetch leaves the whole table as it was. */
    method Ingest(peer: Name, fetch: Result<Record, PullError>, now: Moment) returns (r: Option<Rejection>)
      modifies this
      ensures r == Refusal(old(View()), peer, fetch, now)
      ensures View() == Ingested(old(View()), peer, fetch, now)
      ensures r.Some? ==> View() == old(View())
    {
      if fetch.Err? {
        return Some(FetchFailed(fetch.error));
      }
      var record := fetch.value;
      if peer !in entries {
        return Some(Unconfigured);
      }
      if record.host != peer {
        return Some(HostMismatch(record.host));
      }
      if AheadBy(record, now) > CLOCK_SKEW_SECONDS {
        return Some(ClockSkew(AheadBy(record, now)));
      }
      entries := entries[peer := Entry(Some(record), Some(now.monotonic), false)];
      r := None;
    }

    method Freshness(host: Name, now: Moment) returns (r: Option<Freshness>)
      modifies this
      ensures r == (if host in old(entries) then Some(Classify(bounds, old(entries)[host], now)) else None)
      ensures View() == Classified(bounds, old(View()), host, now)
    {
      if host !in entries {
        return None;
      }
      var entry := entries[host];
      if Age(bounds, entry, now) >= bounds.expiry {
        if !entry.announced {
          entries := entries[host := entry.(announced := true)];
          var lastSeq := if entry.record.Some? then Some(entry.record.value.recordSeq) else None;
          events := events + [PeerExpired(host, lastSeq, now.wall)];
        }
        r := Some(Expired);
      } else if entry.receivedAt.None? || Age(bounds, entry, now) > bounds.staleAfter {
        r := Some(Stale);
      } else {
        r := Some(Fresh);
      }
    }

    /** Stops at the first stale peer, so later peers may not be classified yet. */
    method AnyPeerStale(now: Moment) returns (r: bool)
      modifies this
      ensures r == SomeStale(bounds, old(entries), now)
      ensures View() == Sweep(bounds, old(View()), now)
    {
      var todo := entries.Keys;
      ghost var before := View();
      while todo != {}
        invariant todo <= before.entries.Keys && SameAges(before.entries, entries)
        invariant Swept(bounds, View(), todo, now) == Sweep(bounds, before, now)
        invariant forall h :: h in before.entries && h !in todo ==> !Classify(bounds, before.entries[h], now).Stale?
        decreases todo
      {
        var host := Least(todo);
        var freshness := Freshness(host, now);
        if freshness == Some(Stale) {
          return true;
        }
        todo := todo - {host};
      }
      r := false;
    }

    /** While any peer is stale nothing may scale up; otherwise the wish passes. */
    method ClampScaleUp(desired: nat, current: nat, now: Moment) returns (r: nat)
      modifies this
      ensures r == if SomeStale(bounds, old(entries), now) then Min(desired, current) else desired
      ensures View() == Sweep(bounds, old(View()), now)
    {
      var stale := AnyPeerStale(now);
      r := if stale && current < desired then current else desired;
    }

    /** A fresh or stale peer counts as it last published, an expired one as nothing. */
    method PeerAccountWorkers(host: Name, account: Name, now: Moment) returns (r: Option<nat>)
      modifies this
      ensures r.None? <==> host !in old(entries)
      ensures r.Some? ==>
                var e := old(entries)[host];
                if Classify(bounds, e, now).Expired? || e.record.None? || account !in e.record.value.accounts
                then r.value == 0
                else r.value == SumSeq(e.record.value.accounts[account])
      ensures View() == Classified(bounds, old(View()), host, now)
    {
      var freshness := Freshness(host, now);
      match freshness {
        case None => r := None;
        case Some(Expired) => r := Some(0);
        case Some(_) => r := Some(Workers(entries[host], account));
      }
    }

    method DrainEvents() returns (drained: seq<Event>)
      modifies this`events
      ensures drained == old(events) && events == []
    {
      drained := events;
      events := [];
    }
  }

  // ---- runs of calls ----

  /** `Offer` is `Ingest`, `Ask` is `Freshness` or `PeerAccountWorkers`, `SweepAll` is
      `AnyPeerStale` or `ClampScaleUp`. */
  datatype Call =
    | Offer(peer: Name, fetch: Result<Record, PullError>, now: Moment)
    | Ask(host: Name, now: Moment)
    | SweepAll(now: Moment)
    | Drain

  function Next(b: Bounds, t: Table, c: Call): Table {
    match c
    case Offer(peer, fetch, now) => Ingested(t, peer, fetch, now)
    case Ask(host, now) => Classified(b, t, host, now)
    case SweepAll(now) => Sweep(b, t, now)
    case Drain => t.(events := [])
  }

  function After(b: Bounds, t: Table, run: seq<Call>): Table {
    if run == [] then t else Next(b, After(b, t, run[..|run| - 1]), run[|run| - 1])
  }

  // ---- a sweep ----

  predicate AllAsk(asked: seq<Call>, now: Moment) {
    forall i :: 0 <= i < |asked| ==> asked[i].Ask? && asked[i].now == now
  }

  lemma {:induction false} AfterAsk(b: Bounds, t: Table, h: Name, now: Moment, asked: seq<Call>)
    ensures After(b, t, [Ask(h, now)] + asked) == After(b, Classified(b, t, h, now), asked)
  {
    var run := [Ask(h, now)] + asked;
    if asked == [] {
      assert run[..0] == [] && run[0] == Ask(h, now);
    } else {
      assert run[..|run| - 1] == [Ask(h, now)] + asked[..|asked| - 1];
      AfterAsk(b, t, h, now, asked[..|asked| - 1]);
    }
  }

  /** A sweep is a list of questions at one moment, and nothing more. */
  lemma {:induction false} SweepIsAsks(b: Bounds, t: Table, todo: set<Name>, now: Moment) returns (asked: seq<Call>)
    ensures AllAsk(asked, now) && Swept(b, t, todo, now) == After(b, t, asked)
    decreases todo
  {
    asked := [];
    if todo != {} {
      var h := Least(todo);
      if !(h in t.entries && Classify(b, t.entries[h], now).Stale?) {
        var more := SweepIsAsks(b, Classified(b, t, h, now), todo - {h}, now);
        asked := [Ask(h, now)] + more;
        AfterAsk(b, t, h, now, more);
      }
    }
  }

  /** Over these calls a peer keeps its record and receipt, and its announcement is made
      only at an age of at least the expiry bound. */
  predicate Aged(b: Bounds, e: Entry, f: Entry, now: Moment) {
    && f.record == e.record && f.receivedAt == e.receivedAt
    && (e.announced ==> f.announced)
    && (f.announced && !e.announced ==> b.expiry <= Age(b, e, now))
  }

  lemma {:induction false} AsksOnlyAge(b: Bounds, t: Table, asked: seq<Call>, now: Moment, h: Name)
    requires AllAsk(asked, now) && h in t.entries
    ensures h in After(b, t, asked).entries && Aged(b, t.entries[h], After(b, t, asked).entries[h], now)
  {
    if asked != [] {
      AsksOnlyAge(b, t, asked[..|asked| - 1], now, h);
    }
  }

  /** The events a list of questions queues: one for each peer whose announcement it
      makes, and no other. */
  function Count(events: seq<Event>, h: Name): nat {
    if events == [] then 0
    else Count(events[..|events| - 1], h) + if events[|events| - 1].host == h then 1 else 0
  }

  function Announced(t: Table, h: Name): int { if h in t.entries && t.entries[h].announced then 1 else 0 }

  lemma CountSnoc(events: seq<Event>, e: Event, h: Name)
    ensures Count(events + [e], h) == Count(events, h) + if e.host == h then 1 else 0
  {
    assert (events + [e])[..|events|] == events;
  }

  lemma {:induction false} AsksQueueAnnouncements(b: Bounds, t: Table, asked: seq<Call>, now: Moment, h: Name)
    requires AllAsk(asked, now)
    ensures t.events <= After(b, t, asked).events
    ensures Count(After(b, t, asked).events, h) - Count(t.events, h) == Announced(After(b, t, asked), h) - Announced(t, h)
    ensures forall i :: |t.events| <= i < |After(b, t, asked).events| ==> After(b, t, asked).events[i].at == now.wall
  {
    if asked != [] {
      var n := |asked| - 1;
      AsksQueueAnnouncements(b, t, asked[..n], now, h);
      var u := After(b, t, asked[..n]);
      var k := asked[n].host;
      if Announces(b, u, k, now) {
        CountSnoc(u.events, ExpiryEvent(k, u.entries[k], now), h);
      }
    }
  }

  // ---- what runs keep ----

  /** The table call i finds. */
  function Before(b: Bounds, t: Table, run: seq<Call>, i: nat): Table
    requires i <= |run|
  {
    After(b, t, run[..i])
  }

  predicate Accepts(b: Bounds, t: Table, run: seq<Call>, i: nat, h: Name)
    requires i < |run|
  {
    run[i].Offer? && run[i].peer == h && Refusal(Before(b, t, run, i), h, run[i].fetch, run[i].now).None?
  }

  /** Call i announces h's expiry. */
  predicate Emits(b: Bounds, t: Table, run: seq<Call>, i: nat, h: Name)
    requires i < |run|
  {
    Announced(Before(b, t, run, i), h) == 0 && Announced(Before(b, t, run, i + 1), h) == 1
  }

  predicate QuietFor(b: Bounds, t: Table, run: seq<Call>, i: nat, j: nat, h: Name)
    requires i <= j <= |run|
  {
    forall k: nat :: i <= k < j ==> !Accepts(b, t, run, k, h)
  }

  predicate ClockRises(run: seq<Call>) {
    forall i, j :: 0 <= i < j < |run| && !run[i].Drain? && !run[j].Drain? ==> run[i].now.monotonic <= run[j].now.monotonic
  }

  lemma StepOf(b: Bounds, t: Table, run: seq<Call>, i: nat)
    requires i < |run|
    ensures Before(b, t, run, i + 1) == Next(b, Before(b, t, run, i), run[i])
  {
    assert run[..i + 1][..i] == run[..i];
  }

  /** A call that accepts nothing of h only ages its entry. */
  lemma CallOnlyAges(b: Bounds, t: Table, c: Call, h: Name)
    requires h in t.entries
    requires c.Offer? && c.peer == h ==> Refusal(t, h, c.fetch, c.now).Some?
    ensures h in Next(b, t, c).entries
    ensures if c.Drain? then Next(b, t, c).entries[h] == t.entries[h] else Aged(b, t.entries[h], Next(b, t, c).entries[h], c.now)
  {
    if c.SweepAll? {
      var asked := SweepIsAsks(b, t, t.entries.Keys, c.now);
      AsksOnlyAge(b, t, asked, c.now, h);
    }
  }

  /** Without an accepted record a peer's entry only ever gains its announcement. */
  lemma {:induction false} EntryAges(b: Bounds, t: Table, run: seq<Call>, i: nat, j: nat, h: Name)
    requires i <= j <= |run| && QuietFor(b, t, run, i, j, h) && h in Before(b, t, run, i).entries
    ensures h in Before(b, t, run, j).entries
    ensures var e, f := Before(b, t, run, i).entries[h], Before(b, t, run, j).entries[h];
            f.record == e.record && f.receivedAt == e.receivedAt && (e.announced ==> f.announced)
  {
    hide Before, Next, Refusal;
    if i < j {
      assert !Accepts(b, t, run, j - 1, h);
      assert QuietFor(b, t, run, i, j - 1, h);
      EntryAges(b, t, run, i, j - 1, h);
      StepOf(b, t, run, j - 1);
      CallOnlyAges(b, Before(b, t, run, j - 1), run[j - 1], h);
    }
  }

  lemma ClassifyAges(b: Bounds, e: Entry, f: Entry, now: Moment, later: Moment)
    requires b.Valid() && e.receivedAt == f.receivedAt && now.monotonic <= later.monotonic
    ensures OnlyFalls(Classify(b, e, now), Classify(b, f, later))
  {
  }

  /** Until a record is accepted a peer only moves from fresh to stale to expired, as
      seen at the moments of any two calls. */
  lemma FreshnessOnlyFalls(b: Bounds, t: Table, run: seq<Call>, i: nat, j: nat, h: Name)
    requires b.Valid() && ClockRises(run) && i < j < |run| && h in Before(b, t, run, i).entries
    requires !run[i].Drain? && !run[j].Drain? && QuietFor(b, t, run, i, j, h)
    ensures h in Before(b, t, run, j).entries
    ensures var before, after := Classify(b, Before(b, t, run, i).entries[h], run[i].now),
                                 Classify(b, Before(b, t, run, j).entries[h], run[j].now);
            (after.Fresh? ==> before.Fresh?) && (before.Expired? ==> after.Expired?)
  {
    EntryAges(b, t, run, i, j, h);
    ClassifyAges(b, Before(b, t, run, i).entries[h], Before(b, t, run, j).entries[h], run[i].now, run[j].now);
  }

  /** An accepted record makes the peer fresh for as long as the staleness bound. */
  lemma AcceptedIsFresh(b: Bounds, t: Table, run: seq<Call>, i: nat, h: Name, now: Moment)
    requires b.Valid() && i < |run| && Accepts(b, t, run, i, h)
    ensures h in Before(b, t, run, i + 1).entries
    ensures run[i].now.monotonic <= now.monotonic ==>
              (Classify(b, Before(b, t, run, i + 1).entries[h], now).Fresh?
               <==> now.monotonic - run[i].now.monotonic <= b.staleAfter)
  {
    StepOf(b, t, run, i);
  }

  /** No call configures a peer. */
  lemma CallKeepsPeers(b: Bounds, t: Table, c: Call, h: Name)
    ensures h in Next(b, t, c).entries <==> h in t.entries
  {
    if c.SweepAll? {
      var asked := SweepIsAsks(b, t, t.entries.Keys, c.now);
      AsksKeepPeers(b, t, asked, c.now, h);
    }
  }

  lemma {:induction false} AsksKeepPeers(b: Bounds, t: Table, asked: seq<Call>, now: Moment, h: Name)
    requires AllAsk(asked, now)
    ensures h in After(b, t, asked).entries <==> h in t.entries
  {
    if asked != [] {
      AsksKeepPeers(b, t, asked[..|asked| - 1], now, h);
    }
  }

  /** A call queues exactly one event for each peer whose expiry it announces, stamped
      with its own moment, and none for any other. */
  lemma EventsAreAnnouncements(b: Bounds, t: Table, run: seq<Call>, i: nat, h: Name)
    requires i < |run| && !run[i].Drain?
    ensures var earlier, later := Before(b, t, run, i).events, Before(b, t, run, i + 1).events;
            && earlier <= later
            && Count(later, h) == Count(earlier, h) + (if Emits(b, t, run, i, h) then 1 else 0)
            && forall k :: |earlier| <= k < |later| ==> later[k].at == run[i].now.wall
  {
    var u := Before(b, t, run, i);
    StepOf(b, t, run, i);
    match run[i] {
      case Offer(peer, fetch, now) =>
      case Ask(host, now) => OneAskQueues(b, u, host, now, h);
      case SweepAll(now) =>
        var asked := SweepIsAsks(b, u, u.entries.Keys, now);
        AsksQueueAnnouncements(b, u, asked, now, h);
        AsksKeepAnnouncements(b, u, asked, now, h);
    }
  }

  lemma OneAskQueues(b: Bounds, u: Table, host: Name, now: Moment, h: Name)
    ensures var v := Classified(b, u, host, now);
            && u.events <= v.events
            && Count(v.events, h) == Count(u.events, h) + Announced(v, h) - Announced(u, h)
            && Announced(u, h) <= Announced(v, h)
            && forall k :: |u.events| <= k < |v.events| ==> v.events[k].at == now.wall
  {
    if Announces(b, u, host, now) {
      CountSnoc(u.events, ExpiryEvent(host, u.entries[host], now), h);
    }
  }

  lemma AsksKeepAnnouncements(b: Bounds, t: Table, asked: seq<Call>, now: Moment, h: Name)
    requires AllAsk(asked, now)
    ensures Announced(t, h) <= Announced(After(b, t, asked), h)
  {
    AsksKeepPeers(b, t, asked, now, h);
    if h in t.entries {
      AsksOnlyAge(b, t, asked, now, h);
    }
  }

  /** A call that announces h accepts no record of it, and finds it expired. */
  lemma EmitsWhenExpired(b: Bounds, t: Table, run: seq<Call>, i: nat, h: Name)
    requires i < |run| && Emits(b, t, run, i, h)
    ensures h in Before(b, t, run, i).entries && !run[i].Drain? && !Accepts(b, t, run, i, h)
    ensures b.expiry <= Age(b, Before(b, t, run, i).entries[h], run[i].now)
  {
    StepOf(b, t, run, i);
    CallKeepsPeers(b, Before(b, t, run, i), run[i], h);
    if !Accepts(b, t, run, i, h) {
      CallOnlyAges(b, Before(b, t, run, i), run[i], h);
    }
  }

  /** An expiry is announced only at an age of at least the expiry bound, and twice
      only if a record was accepted in between. */
  lemma ExpiryAnnouncedOnce(b: Bounds, t: Table, run: seq<Call>, i: nat, j: nat, h: Name)
    requires i < j < |run| && Emits(b, t, run, i, h) && Emits(b, t, run, j, h)
    ensures h in Before(b, t, run, i).entries && !run[i].Drain?
    ensures b.expiry <= Age(b, Before(b, t, run, i).entries[h], run[i].now)
    ensures exists k: nat :: i < k < j && Accepts(b, t, run, k, h)
  {
    EmitsWhenExpired(b, t, run, i, h);
    if forall k: nat :: i < k < j ==> !Accepts(b, t, run, k, h) {
      assert QuietFor(b, t, run, i + 1, j, h);
      EntryAges(b, t, run, i + 1, j, h);
    }
  }

  /** By the first question after it, an expiry has been announced: by that question, or
      by another call since the record was accepted. */
  lemma ExpiryIsAnnounced(b: Bounds, t: Table, run: seq<Call>, i: nat, j: nat, h: Name)
    requires b.Valid() && i < j < |run| && Accepts(b, t, run, i, h) && QuietFor(b, t, run, i + 1, j, h)
    requires run[j].Ask? && run[j].host == h && b.expiry <= run[j].now.monotonic - run[i].now.monotonic
    ensures Emits(b, t, run, j, h) || exists k: nat :: i < k < j && Emits(b, t, run, k, h)
  {
    StepOf(b, t, run, i);
    StepOf(b, t, run, j);
    EntryAges(b, t, run, i + 1, j, h);
    if Before(b, t, run, j).entries[h].announced {
      var k := AnnouncedBy(b, t, run, i + 1, j, h);
    }
  }

  lemma {:induction false} AnnouncedBy(b: Bounds, t: Table, run: seq<Call>, i: nat, j: nat, h: Name) returns (k: nat)
    requires i <= j <= |run| && QuietFor(b, t, run, i, j, h) && h in Before(b, t, run, i).entries
    requires !Before(b, t, run, i).entries[h].announced
    requires h in Before(b, t, run, j).entries && Before(b, t, run, j).entries[h].announced
    ensures i <= k < j && Emits(b, t, run, k, h)
  {
    assert i < j;
    if Emits(b, t, run, j - 1, h) {
      k := j - 1;
    } else {
      assert QuietFor(b, t, run, i, j - 1, h);
      EntryAges(b, t, run, i, j - 1, h);
      k := AnnouncedBy(b, t, run, i, j - 1, h);
    }
  }
}
