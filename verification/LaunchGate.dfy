/** The federated launch gate of src/ownership.rs: what one host publishes, how
    it totals the records it pulls back, and the pending-launch file the gate
    rewrites step by step. */
module LaunchGate {
  import opened Common

  datatype PoolState = PoolState(governed: nat, pending: nat)

  datatype PeerAccount = PeerAccount(fingerprint: string, pools: seq<PoolState>)

  datatype PeerRecord = PeerRecord(accounts: seq<PeerAccount>)

  /** Launches decided but not yet observable. `Reserved` remembers the worker
      count observed when the reservation was opened. */
  datatype PendingEntry = Legacy(count: nat) | Reserved(count: nat, baseline: nat)

  // ---- totalling peer records ----

  /** The pools a record lists under accounts with this fingerprint. */
  function MatchingPools(accounts: seq<PeerAccount>, fingerprint: string): seq<PoolState> {
    if accounts == [] then []
    else
      (if accounts[0].fingerprint == fingerprint then accounts[0].pools else [])
      + MatchingPools(accounts[1..], fingerprint)
  }

  function PoolsCommitted(pools: seq<PoolState>): (r: seq<nat>)
    ensures |r| == |pools| && forall i :: 0 <= i < |r| ==> r[i] == SatAdd(pools[i].governed, pools[i].pending)
  {
    seq(|pools|, i requires 0 <= i < |pools| => SatAdd(pools[i].governed, pools[i].pending))
  }

  function RecordCommitted(record: PeerRecord, fingerprint: string): nat {
    SatSum(PoolsCommitted(MatchingPools(record.accounts, fingerprint)))
  }

  function RecordsCommitted(records: seq<PeerRecord>, fingerprint: string): (r: seq<nat>)
    ensures |r| == |records| && forall i :: 0 <= i < |r| ==> r[i] == RecordCommitted(records[i], fingerprint)
  {
    seq(|records|, i requires 0 <= i < |records| => RecordCommitted(records[i], fingerprint))
  }

  function PeersCommitted(records: seq<PeerRecord>, fingerprint: string): nat {
    SatSum(RecordsCommitted(records, fingerprint))
  }

  // The exact, unsaturated counts the records stand for: every account of every record
  // counts, with all its pools if its fingerprint agrees and with nothing otherwise.

  function PoolsExact(pools: seq<PoolState>): (r: seq<nat>)
    ensures |r| == |pools| && forall i :: 0 <= i < |r| ==> r[i] == pools[i].governed + pools[i].pending
  {
    seq(|pools|, i requires 0 <= i < |pools| => pools[i].governed + pools[i].pending)
  }

  function AccountsExact(accounts: seq<PeerAccount>, fingerprint: string): (r: seq<nat>)
    ensures |r| == |accounts|
    ensures forall i :: 0 <= i < |r| ==>
              r[i] == if accounts[i].fingerprint == fingerprint then SumSeq(PoolsExact(accounts[i].pools)) else 0
  {
    seq(|accounts|, i requires 0 <= i < |accounts| =>
      if accounts[i].fingerprint == fingerprint then SumSeq(PoolsExact(accounts[i].pools)) else 0)
  }

  function RecordExact(record: PeerRecord, fingerprint: string): nat {
    SumSeq(AccountsExact(record.accounts, fingerprint))
  }

  function RecordsExact(records: seq<PeerRecord>, fingerprint: string): (r: seq<nat>)
    ensures |r| == |records| && forall i :: 0 <= i < |r| ==> r[i] == RecordExact(records[i], fingerprint)
  {
    seq(|records|, i requires 0 <= i < |records| => RecordExact(records[i], fingerprint))
  }

  function PeersExact(records: seq<PeerRecord>, fingerprint: string): nat {
    SumSeq(RecordsExact(records, fingerprint))
  }

  lemma {:induction false} SumOfConcat(xs: seq<nat>, ys: seq<nat>)
    ensures SumSeq(xs + ys) == SumSeq(xs) + SumSeq(ys)
  {
    if ys == [] {
      assert xs + ys == xs;
    } else {
      var n := |ys| - 1;
      assert xs + ys == xs + ys[..n] + [ys[n]];
      SumOfConcat(xs, ys[..n]);
      SumSeqSnoc(xs + ys[..n], ys[n]);
    }
  }

  lemma PoolsOfConcat(xs: seq<PoolState>, ys: seq<PoolState>)
    ensures SumSeq(PoolsExact(xs + ys)) == SumSeq(PoolsExact(xs)) + SumSeq(PoolsExact(ys))
  {
    assert PoolsExact(xs + ys) == PoolsExact(xs) + PoolsExact(ys);
    SumOfConcat(PoolsExact(xs), PoolsExact(ys));
  }

  lemma SumOfNothing()
    ensures SumSeq([]) == 0
  {
  }

  lemma FirstAccount(accounts: seq<PeerAccount>, fingerprint: string)
    requires accounts != []
    ensures SumSeq(AccountsExact(accounts, fingerprint))
            == (if accounts[0].fingerprint == fingerprint then SumSeq(PoolsExact(accounts[0].pools)) else 0)
               + SumSeq(AccountsExact(accounts[1..], fingerprint))
  {
    hide SumSeq, PoolsExact;
    var exact := AccountsExact(accounts, fingerprint);
    assert exact == [] + [exact[0]] + AccountsExact(accounts[1..], fingerprint);
    SumOfConcat([] + [exact[0]], AccountsExact(accounts[1..], fingerprint));
    SumSeqSnoc([], exact[0]);
    SumOfNothing();
  }

  /** The matching pools hold exactly what the accounts of this fingerprint hold. */
  lemma {:induction false} MatchingPoolsExact(accounts: seq<PeerAccount>, fingerprint: string)
    ensures SumSeq(PoolsExact(MatchingPools(accounts, fingerprint))) == SumSeq(AccountsExact(accounts, fingerprint))
  {
    if accounts != [] {
      MatchingPoolsExact(accounts[1..], fingerprint);
      FirstAccount(accounts, fingerprint);
      PoolsOfConcat(accounts[0].pools, MatchingPools(accounts[1..], fingerprint));
      PoolsOfConcat([], MatchingPools(accounts[1..], fingerprint));
      hide AccountsExact, PoolsExact, SumSeq;
    }
  }

  /** Saturation, inside a record and across records, only ever caps the exact count. */
  lemma PeersCommittedIsCapped(records: seq<PeerRecord>, fingerprint: string)
    ensures PeersCommitted(records, fingerprint) == Min(PeersExact(records, fingerprint), U32_MAX)
  {
    forall i | 0 <= i < |records|
      ensures RecordCommitted(records[i], fingerprint) == Min(RecordExact(records[i], fingerprint), U32_MAX)
    {
      var pools := MatchingPools(records[i].accounts, fingerprint);
      SatSumIsCappedSum(PoolsCommitted(pools), PoolsExact(pools));
      MatchingPoolsExact(records[i].accounts, fingerprint);
    }
    SatSumIsCappedSum(RecordsCommitted(records, fingerprint), RecordsExact(records, fingerprint));
  }

  function PermittedLaunch(want: nat, own: nat, ownPending: nat, peers: nat, total: nat): (permitted: nat)
    ensures permitted <= want
    ensures permitted > 0 ==> own + ownPending + peers + permitted <= total
    // nothing is refused while there is room for it
    ensures permitted < want ==> total <= own + ownPending + peers + permitted
  {
    Min(want, SatSub(SatSub(SatSub(total, own), ownPending), peers))
  }

  /** A positive admission proves that no term of the saturated total was cut
      off, so the admitted launches fit beside the exact peer count. */
  lemma AdmissionIsExact(want: nat, own: nat, ownPending: nat, records: seq<PeerRecord>,
                         fingerprint: string, total: nat)
    requires total <= U32_MAX
    requires PermittedLaunch(want, own, ownPending, PeersCommitted(records, fingerprint), total) > 0
    ensures own + ownPending + PeersExact(records, fingerprint)
            + PermittedLaunch(want, own, ownPending, PeersCommitted(records, fingerprint), total) <= total
  {
    PeersCommittedIsCapped(records, fingerprint);
  }

  // ---- the pending-launch entry ----

  function PendingCount(entry: Option<PendingEntry>): nat {
    if entry.None? then 0 else entry.value.count
  }

  function PendingObserved(entry: Option<PendingEntry>, observed: nat): bool {
    entry.Some? && entry.value.Reserved? && SatAdd(entry.value.baseline, entry.value.count) <= observed
  }

  /** What the gate publishes for `launches` new workers over the entry it found. */
  function Reservation(previous: Option<PendingEntry>, own: nat, ownPending: nat, launches: nat): PendingEntry {
    Reserved(SatAdd(ownPending, launches),
             if previous.Some? && previous.value.Reserved? then previous.value.baseline else own)
  }

  /** A reservation is seen in full exactly when, above the count it was opened at, all
      its launches and those it was added to have become observable; a launch added to an
      open reservation keeps that count. */
  lemma ReservationWaitsForAll(previous: Option<PendingEntry>, own: U32, ownPending: U32, launches: U32, observed: nat)
    requires ownPending + launches <= U32_MAX
    ensures var entry := Some(Reservation(previous, own, ownPending, launches));
            var base := if previous.Some? && previous.value.Reserved? then previous.value.baseline else own;
            && PendingCount(entry) == ownPending + launches
            && (base + ownPending + launches <= U32_MAX ==>
                  (PendingObserved(entry, observed) <==> base + ownPending + launches <= observed))
            && (U32_MAX < base + ownPending + launches ==> (PendingObserved(entry, observed) <==> U32_MAX <= observed))
  {
  }

  datatype LaunchDecision = LaunchDecision(permitted: nat, abandoned: bool)

  function Lookup(entries: map<Name, PendingEntry>, pool: Name): Option<PendingEntry> {
    if pool in entries then Some(entries[pool]) else None
  }

  function WithEntry(entries: map<Name, PendingEntry>, pool: Name, entry: Option<PendingEntry>)
    : map<Name, PendingEntry>
  {
    if entry.Some? then entries[pool := entry.value] else entries - {pool}
  }

  /** The pending-launch file, one entry per pool. `history` records every
      version the file has held, which is what a concurrently pulling peer can see. */
  class PendingFile {
    var entries: map<Name, PendingEntry>
    ghost var history: seq<map<Name, PendingEntry>>

    constructor ()
      ensures entries == map[] && history == [map[]]
    {
      entries := map[];
      history := [map[]];
    }

    method Publish(pool: Name, entry: Option<PendingEntry>)
      modifies this
      ensures entries == WithEntry(old(entries), pool, entry)
      ensures history == old(history) + [entries]
    {
      match entry {
        case Some(e) => entries := entries[pool := e];
        case None => entries := entries - {pool};
      }
      history := history + [entries];
    }

    /** Publishes the full intent, then admits what the re-pulled records leave
        room for. The intent is the first version written; the second is the
        admitted reservation, or, when the re-pull fails or nothing is admitted,
        exactly the file as it was found. Other pools are never touched. */
    method GateLaunch(request: nat, stepLimit: nat, own: nat, ownPending: nat, fingerprint: string,
                      pool: Name, total: nat, repull: Result<seq<PeerRecord>, string>)
      returns (r: Result<LaunchDecision, string>)
      requires own <= U32_MAX && ownPending <= U32_MAX && total <= U32_MAX
      modifies this
      ensures r.Err? <==> repull.Err?
      ensures r.Ok? ==> r.value.abandoned == (r.value.permitted == 0)
      // as many of the wanted launches as the total has room for beside the exact counts
      ensures r.Ok? ==> r.value.permitted <= Min(request, stepLimit)
      ensures r.Ok? && r.value.permitted > 0
              ==> own + ownPending + PeersExact(repull.value, fingerprint) + r.value.permitted <= total
      ensures r.Ok? && r.value.permitted < Min(request, stepLimit)
              ==> total <= own + ownPending + PeersExact(repull.value, fingerprint) + r.value.permitted
      ensures r.Ok? && r.value.permitted > 0
              ==> entries == old(entries)[pool := Reservation(Lookup(old(entries), pool), own, ownPending, r.value.permitted)]
      ensures r.Err? || r.value.permitted == 0 ==> entries == old(entries)
      ensures var intent := Reservation(Lookup(old(entries), pool), own, ownPending, Min(request, stepLimit));
              history == old(history) + [old(entries)[pool := intent], entries]
    {
      var want := if request <= stepLimit then request else stepLimit;
      var previous := Lookup(entries, pool);
      Publish(pool, Some(Reservation(previous, own, ownPending, want)));
      if repull.Err? {
        Publish(pool, previous);
        assert entries == old(entries);
        return Err(repull.error);
      }
      var permitted := PermittedLaunch(want, own, ownPending, PeersCommitted(repull.value, fingerprint), total);
      PeersCommittedIsCapped(repull.value, fingerprint);
      if permitted == 0 {
        Publish(pool, previous);
        assert entries == old(entries);
        return Ok(LaunchDecision(0, true));
      }
      AdmissionIsExact(want, own, ownPending, repull.value, fingerprint, total);
      Publish(pool, Some(Reservation(previous, own, ownPending, permitted)));
      return Ok(LaunchDecision(permitted, false));
    }
  }
}
