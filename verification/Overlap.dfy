/** workspace_owner and resolve_workspace_overlap of src/ownership.rs: which of the
    hosts that hold a repository keeps working on it. */
module Overlap {
  import opened Common

  type Path = Name
  type Origin = Name

  /** A host's repositories, by workspace path. */
  type Origins = map<Path, Origin>

  datatype PeerRecord = PeerRecord(host: Name, origins: Origins)

  datatype Event = WorkspaceOverlap(workspace: Path, origin: Origin, owner: Name, peers: seq<Name>)

  predicate Lists(origins: Origins, origin: Origin) {
    exists p :: p in origins && origins[p] == origin
  }

  /** The named owner, or else the lowest claimant. */
  function WorkspaceOwner(origin: Origin, repoOwners: map<Origin, Name>, claimants: set<Name>): Name
    requires claimants != {}
  {
    if origin in repoOwners then repoOwners[origin] else Least(claimants)
  }

  // ---- one host's verdict ----

  /** The hosts of the records that list an origin, in record order. */
  function Claiming(records: seq<PeerRecord>, origin: Origin): seq<Name> {
    if records == [] then []
    else
      Claiming(records[..|records| - 1], origin)
      + if Lists(records[|records| - 1].origins, origin) then [records[|records| - 1].host] else []
  }

  function OwnerSeenBy(local: Name, origin: Origin, records: seq<PeerRecord>, repoOwners: map<Origin, Name>): Name {
    WorkspaceOwner(origin, repoOwners, {local} + Elements(Claiming(records, origin)))
  }

  /** The host gives up the workspaces of this origin. */
  predicate GivesUp(local: Name, origin: Origin, records: seq<PeerRecord>, repoOwners: map<Origin, Name>) {
    Claiming(records, origin) != [] && OwnerSeenBy(local, origin, records, repoOwners) != local
  }

  ghost predicate EventsMatch(local: Name, origins: Origins, records: seq<PeerRecord>, repoOwners: map<Origin, Name>,
                              excluded: Origins, events: seq<Event>)
  {
    && (forall i :: 0 <= i < |events| ==>
          && events[i].workspace in excluded && events[i].origin == excluded[events[i].workspace]
          && events[i].owner == OwnerSeenBy(local, events[i].origin, records, repoOwners)
          && events[i].peers == Claiming(records, events[i].origin))
    && (forall i, j :: 0 <= i < j < |events| ==> events[i].workspace < events[j].workspace)
    && (forall p :: p in excluded ==> exists i :: 0 <= i < |events| && events[i].workspace == p)
  }

  method Claimants(local: Name, origin: Origin, records: seq<PeerRecord>) returns (claimants: set<Name>, peers: seq<Name>)
    ensures peers == Claiming(records, origin) && claimants == {local} + Elements(peers)
  {
    claimants, peers := {local}, [];
    var n := 0;
    while n < |records|
      invariant n <= |records| && peers == Claiming(records[..n], origin) && claimants == {local} + Elements(peers)
    {
      assert records[..n + 1][..n] == records[..n];
      if Lists(records[n].origins, origin) {
        assert Elements(peers + [records[n].host]) == Elements(peers) + {records[n].host};
        claimants := claimants + {records[n].host};
        peers := peers + [records[n].host];
      }
      n := n + 1;
    }
    assert records[..n] == records;
  }

  /** Excludes exactly the contested workspaces that another host keeps, with one
      event for each, in path order. */
  method ResolveWorkspaceOverlap(local: Name, origins: Origins, records: seq<PeerRecord>, repoOwners: map<Origin, Name>)
    returns (excluded: Origins, events: seq<Event>)
    ensures forall p :: p in excluded <==> p in origins && GivesUp(local, origins[p], records, repoOwners)
    ensures forall p :: p in excluded ==> excluded[p] == origins[p]
    ensures EventsMatch(local, origins, records, repoOwners, excluded, events)
  {
    hide Claiming, WorkspaceOwner;
    excluded, events := map[], [];
    var todo := origins.Keys;
    while todo != {}
      invariant todo <= origins.Keys
      invariant forall p, q :: p in origins && p !in todo && q in todo ==> p < q
      invariant forall p :: p in excluded <==> p in origins && p !in todo && GivesUp(local, origins[p], records, repoOwners)
      invariant forall p :: p in excluded ==> excluded[p] == origins[p]
      invariant EventsMatch(local, origins, records, repoOwners, excluded, events)
      decreases todo
    {
      var path := Least(todo);
      var origin := origins[path];
      todo := todo - {path};
      var claimants, peers := Claimants(local, origin, records);
      if peers != [] {
        var owner := WorkspaceOwner(origin, repoOwners, claimants);
        if owner != local {
          AddEvent(local, origins, records, repoOwners, excluded, events, path, owner, peers);
          events := events + [WorkspaceOverlap(path, origin, owner, peers)];
          excluded := excluded[path := origin];
        }
      }
    }
  }

  lemma AddEvent(local: Name, origins: Origins, records: seq<PeerRecord>, repoOwners: map<Origin, Name>,
                 excluded: Origins, events: seq<Event>, path: Path, owner: Name, peers: seq<Name>)
    requires EventsMatch(local, origins, records, repoOwners, excluded, events) && path in origins
    requires forall p :: p in excluded ==> p < path
    requires owner == OwnerSeenBy(local, origins[path], records, repoOwners) && peers == Claiming(records, origins[path])
    ensures EventsMatch(local, origins, records, repoOwners, excluded[path := origins[path]],
                        events + [WorkspaceOverlap(path, origins[path], owner, peers)])
  {
    hide Claiming, OwnerSeenBy;
    var more := events + [WorkspaceOverlap(path, origins[path], owner, peers)];
    var wider := excluded[path := origins[path]];
    forall p | p in wider ensures exists i :: 0 <= i < |more| && more[i].workspace == p {
      if p == path {
        assert more[|events|].workspace == p;
      } else {
        var i :| 0 <= i < |events| && events[i].workspace == p;
        assert more[i].workspace == p;
      }
    }
  }

  // ---- all hosts together ----

  /** The records h holds are those of all the other hosts, as each stands. */
  ghost predicate HoldsAll(hosts: map<Name, Origins>, h: Name, records: seq<PeerRecord>) {
    && (forall i :: 0 <= i < |records| ==>
          records[i].host in hosts && records[i].host != h && records[i].origins == hosts[records[i].host])
    && (forall g :: g in hosts && g != h ==> exists i :: 0 <= i < |records| && records[i].host == g)
  }

  function Listing(hosts: map<Name, Origins>, origin: Origin): set<Name> {
    set h | h in hosts && Lists(hosts[h], origin)
  }

  lemma {:induction false} ClaimingElements(records: seq<PeerRecord>, origin: Origin, h: Name)
    ensures h in Claiming(records, origin)
            <==> exists i :: 0 <= i < |records| && records[i].host == h && Lists(records[i].origins, origin)
  {
    if records != [] {
      var n := |records| - 1;
      ClaimingElements(records[..n], origin, h);
      assert forall i :: 0 <= i < n ==> records[..n][i] == records[i];
    }
  }

  /** Every host that lists an origin sees the same claimants. */
  lemma ClaimantsAreListing(hosts: map<Name, Origins>, h: Name, records: seq<PeerRecord>, origin: Origin)
    requires h in hosts && HoldsAll(hosts, h, records) && Lists(hosts[h], origin)
    ensures {h} + Elements(Claiming(records, origin)) == Listing(hosts, origin)
    ensures h !in Elements(Claiming(records, origin))
  {
    hide Lists;
    forall g ensures g in Claiming(records, origin) <==> g in Listing(hosts, origin) && g != h {
      ClaimingElements(records, origin, g);
    }
  }

  /** A host keeps an origin if one of its workspaces of that origin stays seedable. */
  ghost predicate Keeps(origins: Origins, excluded: Origins, origin: Origin) {
    exists p :: p in origins && origins[p] == origin && p !in excluded
  }

  ghost predicate Resolved(hosts: map<Name, Origins>, h: Name, records: seq<PeerRecord>, repoOwners: map<Origin, Name>,
                           excluded: Origins)
    requires h in hosts
  {
    && HoldsAll(hosts, h, records)
    && forall p :: p in excluded <==> p in hosts[h] && GivesUp(h, hosts[h][p], records, repoOwners)
  }

  /** Of the hosts listing a contested origin exactly its owner keeps it: no two hosts
      ever work on it, and one does precisely when the owner lists it. */
  lemma ContestedKeptByOwnerOnly(hosts: map<Name, Origins>, repoOwners: map<Origin, Name>, origin: Origin,
                                 h: Name, other: Name, records: seq<PeerRecord>, excluded: Origins)
    requires h in Listing(hosts, origin) && other in Listing(hosts, origin) && h != other
    requires Resolved(hosts, h, records, repoOwners, excluded)
    ensures Keeps(hosts[h], excluded, origin) <==> h == WorkspaceOwner(origin, repoOwners, Listing(hosts, origin))
  {
    ClaimantsAreListing(hosts, h, records, origin);
    assert other in {h} + Elements(Claiming(records, origin));
    var p :| p in hosts[h] && hosts[h][p] == origin;
    assert p in excluded <==> GivesUp(h, origin, records, repoOwners);
  }

  lemma EmptyElements(s: seq<Name>)
    ensures Elements(s) == {} <==> s == []
  {
    if s != [] {
      assert s[0] in Elements(s);
    }
  }

  /** An origin that no other host lists is never given up. */
  lemma UncontestedIsKept(hosts: map<Name, Origins>, repoOwners: map<Origin, Name>, origin: Origin,
                          h: Name, records: seq<PeerRecord>, excluded: Origins)
    requires Listing(hosts, origin) == {h} && h in hosts && Resolved(hosts, h, records, repoOwners, excluded)
    ensures Keeps(hosts[h], excluded, origin)
  {
    assert h in Listing(hosts, origin);
    ClaimantsAreListing(hosts, h, records, origin);
    assert Elements(Claiming(records, origin)) == {};
    EmptyElements(Claiming(records, origin));
    var p :| p in hosts[h] && hosts[h][p] == origin;
    assert p !in excluded;
  }

  ghost predicate AllResolved(hosts: map<Name, Origins>, repoOwners: map<Origin, Name>,
                              views: map<Name, seq<PeerRecord>>, verdicts: map<Name, Origins>)
  {
    && views.Keys == verdicts.Keys == hosts.Keys
    && forall h :: h in hosts ==> Resolved(hosts, h, views[h], repoOwners, verdicts[h])
  }

  function Keepers(hosts: map<Name, Origins>, verdicts: map<Name, Origins>, origin: Origin): set<Name>
    requires verdicts.Keys == hosts.Keys
  {
    set h | h in hosts && exists p :: p in hosts[h] && hosts[h][p] == origin && p !in verdicts[h]
  }

  /** Unless an owner is named, the lowest host that lists a contested origin is the one
      that keeps it; a named owner keeps it alone, or nobody does. */
  lemma LowestOrNamedKeeps(hosts: map<Name, Origins>, repoOwners: map<Origin, Name>, origin: Origin,
                           views: map<Name, seq<PeerRecord>>, verdicts: map<Name, Origins>, a: Name, b: Name, h: Name)
    requires AllResolved(hosts, repoOwners, views, verdicts)
    requires a in hosts && b in hosts && a != b
    requires (exists p :: p in hosts[a] && hosts[a][p] == origin) && exists p :: p in hosts[b] && hosts[b][p] == origin
    ensures h in Keepers(hosts, verdicts, origin)
            <==> && h in hosts && (exists p :: p in hosts[h] && hosts[h][p] == origin)
                 && if origin in repoOwners then h == repoOwners[origin]
                    else forall g, p :: g in hosts && p in hosts[g] && hosts[g][p] == origin ==> h <= g
  {
    forall g | g in hosts ensures Lists(hosts[g], origin) <==> exists p :: p in hosts[g] && hosts[g][p] == origin {
    }
    hide AllResolved, Keepers;
    KeepersAreOwner(hosts, repoOwners, origin, views, verdicts, a, b);
    if origin !in repoOwners {
      var least := Least(Listing(hosts, origin));
      assert least in Listing(hosts, origin);
      assert forall g :: g in hosts && Lists(hosts[g], origin) ==> g in Listing(hosts, origin);
    }
  }

  /** The keepers of a contested origin are its owner alone, or nobody when the owner
      does not list it. */
  lemma KeepersAreOwner(hosts: map<Name, Origins>, repoOwners: map<Origin, Name>, origin: Origin,
                        views: map<Name, seq<PeerRecord>>, verdicts: map<Name, Origins>, a: Name, b: Name)
    requires AllResolved(hosts, repoOwners, views, verdicts)
    requires a in Listing(hosts, origin) && b in Listing(hosts, origin) && a != b
    ensures var owner := WorkspaceOwner(origin, repoOwners, Listing(hosts, origin));
            Keepers(hosts, verdicts, origin) == if owner in Listing(hosts, origin) then {owner} else {}
  {
    hide Resolved, GivesUp;
    var owner := WorkspaceOwner(origin, repoOwners, Listing(hosts, origin));
    forall h ensures h in Keepers(hosts, verdicts, origin) <==> h == owner && h in Listing(hosts, origin) {
      if h in Listing(hosts, origin) {
        ContestedKeptByOwnerOnly(hosts, repoOwners, origin, h, if h == a then b else a, views[h], verdicts[h]);
        assert h in Keepers(hosts, verdicts, origin) <==> Keeps(hosts[h], verdicts[h], origin);
      }
    }
  }
}
