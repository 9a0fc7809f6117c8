# Subscription governor: a verified model

The governor sizes fleets of coding-agent workers under several independent
limits: provider quota windows, one account total shared by hosts that have no
coordinator, the memory and load of each host, and ready work. This project
models the parts where those limits meet and proves what they keep over whole
runs.

| file | models |
|---|---|
| `LaunchGate.dfy`, `LaunchProtocol.dfy` | the federated launch gate: one host's pending-launch file, and N hosts running it against one another, freely interleaved |
| `HostCeiling.dfy`, `SplitTargets.dfy`, `HostAdmission.dfy`, `HostFleet.dfy` | admission of several pools to one host: measured ceiling and pressure clock, integer water-filling, requests and reservations, and runs of all of it |
| `Distribution.dfy`, `Placement.dfy` | a total split over hosts by headroom, and placement under ceilings and step limits |
| `AccountSplit.dfy`, `SharedTotal.dfy` | the total every host derives on its own, and its split |
| `SeedOrder.dfy` | which workspaces new workers are started on |
| `Peers.dfy`, `Backpressure.dfy`, `Saturation.dfy`, `BurnHistory.dfy` | staleness of peers, provider-pressure brake, counter intervals, compatible history |
| `Controller.dfy` | the quota controller with banked resets off |
| `Overlap.dfy` | which host keeps a repository that several hold |
| `LaneInstall.dfy` | a block inserted into a YAML text, and taken out again |
| `Common.dfy` | sums over sequences and name sets, 32-bit saturation |

Names (hosts, pools, routes, origins) are integers: their rank in the
lexicographic order, which is all the code uses of them. Fractions and
headrooms are exact reals. `u32` saturation is written out wherever it can
matter (`SatAdd`, `SatSub`, `Min(.., U32_MAX)`).

## Assumptions

The launch gate (`LaunchProtocol`) assumes, as hypotheses of its theorems:

- every peer answers and none has expired, and one peer's record is read at one moment (different peers at different moments);
- every controller total is at most `limit`, a 32-bit number;
- `Init`: hosts start between cycles with nothing pending or in flight and a status that covers their workers;
- `Sound`: each account cycle succeeds; a launch starts no more workers than the gate admitted; and a cycle that was
  admitted nothing (a hold, a refused gate, a scale-down) starts replacements only within what its open reservation has
  left beside the launches in flight, and none when it is about to clear that reservation.

What each of these is worth is proved beside the theorems, see the last rows on `LaunchProtocol` below.

`HostFleet` assumes (`Sound`) budgets of at most `limit`, launches that resolve within the 900-second
window, and an adapter that counts at least the pool's running processes.

## Findings

- **A launch may exceed what the gate admitted.** The actuator recounts and starts `target - running`
  (`src/fleet/needle.rs`), so workers that die between the count and the actuation are replaced on top of
  the admitted launches. `LaunchCoveredExactlyWhenAdmitted`: one quiet cycle later the published numbers
  cover the host exactly when the launch was no larger than admitted. `UnadmittedLaunchOvershoots` is a run from
  a starting state on which this takes the hosts past their limit.
- **Workers are replaced without any gate.** The actuator is called in every cycle, and with `reconcile_unchanged`
  also when nothing is to change (`src/main.rs`, `src/fleet.rs`; `deploy/codinghome/codex.yaml` sets it), so its recount
  starts replacements on holds, refused gates and scale-downs. `ReconcileCoveredExactly`: a quiet cycle later the host is
  covered exactly when its reservation has room for them. `HoldReplacementOvershoots` is a run from a starting state on
  which one such replacement, and no unsound launch, takes the hosts past their limit.
- **A reservation can stay for good.** It is cleared only once its baseline and count have been seen together, so one
  worker lost before that leaves it open: `ReservationClearsExactly` says when some run still clears it,
  `StuckHostNeverGates` what follows otherwise, and `LostLaunchSticks` is a sound run from a starting state that gets there.
- **A failed cycle uncovers a host** (`FailedCycleCoveredExactlyByReservation`; `FailedCycleUncovers` is the least case).
- **A record torn between status and pending launches** covers the host whatever happens in between, short of a clear
  (`TornReadCoversWithoutClear`); across a clear it does exactly when the old status covered the host at the clear
  (`TornReadAcrossClearExactly`; `TornReadUncovers` is the least case).
- **An adapter that counts fewer workers than run** launches past its own reservation:
  `ReservationCoversExactlyWhenAdapterSeesAll`, `BlindAdapterOvershoots`.
- **Placement can exceed the account's target** even when it is not shrinking. `TargetKeptExactly`: it is kept if and
  only if what the down-steps will hold on to fits in what the goals leave of it plus what the up-steps will hold
  back. `PlacementCanExceedTarget` is a stable case that breaks the condition.
- **A launch that outlives the reservation window** is no longer covered: `TurnKeepsCoverExactly` says when a turn
  still covers every pool, and `LateLaunchOvershoots` is the least case that fails it.
- **Shares exceed the account total** exactly when the total is the largest 32-bit number and the hosts already
  run more than that: `SharesWithinTotalExactly`, `SharesPassTotal`.
- **A pool past 32 bits loses workers.** It keeps the fleet's floor exactly when floor and unowned workers can be added
  in 32 bits (`PoolKeepsFloorExactly`) and its down-step under the condition of `PoolKeepsDownStepExactly`.
  `HeldPoolLosesWorker`: even a hold on stale data breaks both.
- **The sharper water-filling bound** r_j / d_j < (r_i + 1) / d_i holds for pools settled before the last round
  (`SettledBelow`), and throughout a split if and only if the last round's remainders and spare slots allow it
  (`SharperBoundExactly`; `SplitTargets` promises both, pair by pair). `SharperBoundFails` is an input that does not.
- **Installing a removed lane** does not always restore the file: `InstallUndoesRemoveExactly`, `EarlierLaneMoves`.
- **Two spellings of one workspace path** in `running` hide workers from `seed_order`: the last entry wins.
  `OccupancyCountsAllExactly` says when nothing is hidden, and `SecondSpellingHides` is the least case.

## Model

| member | source | states |
|---|---|---|
| LaunchGate.PermittedLaunch | src/ownership.rs:324-337 | never more than wanted; an admitted launch fits the total beside own workers, own pending and peers; nothing is refused while there is room |
| LaunchGate.PeersCommittedIsCapped | src/ownership.rs:493-508 | saturating at every pool, record and sum is capping the exact peer count once, which is the sum over every account of every record of all its pools if its fingerprint agrees |
| LaunchGate.AdmissionIsExact | src/ownership.rs:509-516 | a positive admission means no saturation took place: the exact counts over all accounts of all records fit in the total |
| LaunchGate.ReservationWaitsForAll | src/ownership.rs:463-475 | a reservation is seen in full exactly when all its launches, and those it was added to, have become observable above the count it was opened at |
| LaunchGate.PendingFile.Publish | src/ownership.rs:389-397 | sets or removes one pool's entry, keeps all others, and adds one version to what peers may have read |
| LaunchGate.PendingFile.GateLaunch | src/ownership.rs:450-561 | permits as many of the wanted launches as the total has room for beside the exact counts; the versions of the file a peer can see are the full intent and then the admitted reservation, or the file as it was found when nothing is admitted or the re-pull fails |
| LaunchProtocol.GateStepsAreFileVersions | src/ownership.rs:472-555 | the protocol's publish and settle steps write the versions of the pool's entry that the file class writes |
| LaunchProtocol.InitInv | src/main.rs:855-873 | the starting states satisfy the invariant with the workers themselves as bounds |
| LaunchProtocol.HostStep | src/main.rs:855-873 | every sound step, replacements outside the gate included, keeps one host's books: status plus reservation cover its workers in every phase of the cycle |
| LaunchProtocol.PublishedCoversClaim | src/ownership.rs:450-561 | what a host publishes covers its workers and those it may still replace, and its whole intent while it gates |
| LaunchProtocol.QuietStepKeepsInv | src/main.rs:855-873 | every step but an admission keeps the joint invariant with an unchanged ledger |
| LaunchProtocol.AdmissionKeepsBounds | src/ownership.rs:486-559 | after an admission every claim, and every gate opened before the newest admitted intent, is inside a bound vector whose sum is within the limit |
| LaunchProtocol.AdmissionKeepsReads | src/ownership.rs:486-492 | reads made by gates with newer intents stay good across an admission |
| LaunchProtocol.StepKeepsInv | src/ownership.rs:450-561 | every sound step of any host keeps the joint invariant |
| LaunchProtocol.RunKeepsInv | src/ownership.rs:450-561 | every sound run from a starting state keeps it |
| LaunchProtocol.PublishedCoversWorkers | src/main.rs:855-873 | at every moment of every sound run each host's published workers and pending launches cover its running and in-flight workers |
| LaunchProtocol.LaunchesStayInsideLimit | src/ownership.rs:450-561 | in every interleaving no launch takes running plus in-flight workers of all hosts past the limit, nor does a replacement outside the gate, and no other step adds a worker |
| LaunchProtocol.TotalNeverGrowsPastLimit | src/ownership.rs:450-561 | a total inside the limit stays inside it; a total above it never grows |
| LaunchProtocol.LaunchCoveredExactlyWhenAdmitted | src/fleet/needle.rs:397-428 | the published numbers cover the host a quiet cycle after a launch if and only if the launch was no larger than admitted |
| LaunchProtocol.ReconcileCoveredExactly | src/main.rs:2043-2061 | replacements started in a cycle without an admission leave the host covered a quiet cycle later if and only if its reservation has room for them beside what is in flight, or, when this cycle clears it, there were none |
| LaunchProtocol.HoldReplacementOvershoots | src/fleet.rs:393-416 | a run from a starting state, sound but for one replacement in a cycle that holds, which ends one worker past the limit |
| LaunchProtocol.ReservationClearsExactly | src/ownership.rs:402-405 | some run of the hosts clears an open reservation if and only if running and in-flight workers still reach its baseline and count |
| LaunchProtocol.StuckHostNeverGates | src/main.rs:1889-1909 | otherwise no run lets the host publish an intent again, and at every moment it publishes at least the count it reserved |
| LaunchProtocol.LostLaunchSticks | src/ownership.rs:402-405 | a sound run from a starting state in which one lost launch leaves the host there |
| LaunchProtocol.FailedCycleCoveredExactlyByReservation | src/main.rs:979-994 | a failed cycle leaves the host covered if and only if it had no workers when its gate was open, and otherwise if and only if its reservation covers them all |
| LaunchProtocol.FailedCycleUncovers | src/main.rs:979-994 | the least run from a starting state that fails this: one worker, nothing published |
| LaunchProtocol.TornReadCoversWithoutClear | src/federation.rs:1146-1243 | a status read any number of steps before the pending launches covers the host with them, over every sound run in which it clears nothing |
| LaunchProtocol.TornReadAcrossClearExactly | src/federation.rs:1146-1243 | with a clear in between, the pending launches being read then or any number of steps later, it covers the host in all such runs if and only if the old status covers the host's workers at the clear |
| LaunchProtocol.TornReadCoversExactlyOnOldStatus | src/federation.rs:1146-1243 | torn across just the status write and the clear the record covers the host if and only if the old status did; the untorn reads always do |
| LaunchProtocol.TornReadUncovers | src/federation.rs:1146-1243 | the least case that fails this: two workers behind a record of one |
| LaunchProtocol.OvershootIsTheUndercount | src/ownership.rs:324-337 | a second host gating against a record that leaves workers out ends above the limit by exactly those workers |
| LaunchProtocol.UnadmittedLaunchOvershoots | src/fleet/needle.rs:397-428 | a run from a starting state, sound but for one launch that replaces a dead worker on top of the admission, which ends one worker past the limit |
| HostCeiling.Percentile95IsNearestRank | scripts/subgov_host_capacity.py:29-31 | the cost is a sampled value, at least 95% of the positive samples are at most it, and fewer than 95% are at most anything smaller |
| HostCeiling.HistoryIsRecent | scripts/subgov_host_capacity.py:157-159 | the retained history holds nothing older than a day and nothing but earlier items and the sample's positive sizes, keeps the newest, and drops recent items only past 256 |
| HostCeiling.CeilingIsPaidFor | scripts/subgov_host_capacity.py:161-181 | every slot above the present population is covered at the percentile cost by memory beyond the reserve and by 85% of the slice; under pressure there is none |
| HostCeiling.SpellStart | scripts/subgov_host_capacity.py:169-180 | the pressure clock holds the start of the longest unbroken spell of pressure |
| HostCeiling.SlotTakenExactlyAfterASpell | scripts/subgov_host_capacity.py:166-180 | over any run of probes and failures the pressure clock has run for 60 seconds if and only if pressure was seen at every probe over as long with no gap past 900 |
| HostCeiling.CeilingExactly | scripts/subgov_host_capacity.py:161-181 | over any run of probes, n > 0 slots are within the ceiling if and only if memory and slice pay for those above the present population and, under pressure, n is at most that population, less one after a spell of 60 seconds |
| HostCeiling.RecentKeepsOrder | scripts/subgov_host_capacity.py:157-157 | what is kept of the history keeps its order and its repeats |
| HostCeiling.ColdHostCost | scripts/subgov_host_capacity.py:29-31 | without a positive sample a worker costs six gibibytes |
| SplitTargets.SplitTargets | scripts/subgov_host_capacity.py:34-60 | terminates; the slots sum to exactly min(max(0, ceiling), positive targets), none past a target; demand is served before pools without any; water-filled by demand, and by target among pools without any; the last round pins the largest remainders and their tie-break, and which of its pairs meet the sharper bound |
| SplitTargets.CappedFits | scripts/subgov_host_capacity.py:46-52 | targets settled in a round never use up more than remains |
| SplitTargets.LevelUp | scripts/subgov_host_capacity.py:44-52 | settling pools never lowers the level of the rest, so whoever was at or below it stays there |
| SplitTargets.WinnersHaveRemainders | scripts/subgov_host_capacity.py:53-58 | a spare slot never goes to a pool whose remainder is zero |
| SplitTargets.RoundWaterFills | scripts/subgov_host_capacity.py:39-59 | if i ends below its target then (r_j - 1) / d_j < (r_i + 1) / d_i for every j with demand |
| SplitTargets.RoundFillsByTarget | scripts/subgov_host_capacity.py:43-59 | of two pools without demand, if i ends below its target t_i then (r_j - 1) / t_j < (r_i + 1) / t_i |
| SplitTargets.RoundSettledBelow | scripts/subgov_host_capacity.py:39-52 | r_j / d_j < (r_i + 1) / d_i for every pool settled before the last round |
| SplitTargets.RoundSharperExactly | scripts/subgov_host_capacity.py:53-58 | between two pools of the last round the sharper bound holds if and only if their remainders and spare slots allow it |
| SplitTargets.SharperBoundExactly | scripts/subgov_host_capacity.py:34-60 | the sharper bound holds throughout a split if and only if they allow it for every pair still open in the last round |
| SplitTargets.NoSpareMeetsBound | scripts/subgov_host_capacity.py:57-58 | a pool that gets no spare slot always meets the sharper bound |
| SplitTargets.SharperBoundFails | scripts/subgov_host_capacity.py:53-58 | an instance that does not: no conserving allocation of it meets the bound |
| HostAdmission.AllocationsConserve | scripts/subgov_host_capacity.py:216-222 | the two splits together hand out exactly min(budget, positive targets) |
| HostAdmission.UnknownServedFirst | scripts/subgov_host_capacity.py:217-222 | while a pool of unknown demand is short of its target, no pool of known demand gets a slot |
| HostAdmission.KnownShareByDemand | scripts/subgov_host_capacity.py:220-222 | pools of known demand share by what they report, and one that reports none gets a slot only when the others are at their targets |
| HostAdmission.UnknownShareByTarget | scripts/subgov_host_capacity.py:217-219 | pools of unknown demand share by their targets |
| HostAdmission.HostState.MeasuredCeiling | scripts/subgov_host_capacity.py:155-184 | new history, new clock and the ceiling of the sample, which admits exactly the slots that all probes since a fresh state file leave |
| HostAdmission.HostState.Targets | scripts/subgov_host_capacity.py:209-215 | each pool's target, or a failure exactly when some pool without a request would need one |
| HostAdmission.TargetFollowsRequest | scripts/subgov_host_capacity.py:210-215 | a request of the last 900 seconds sets the target, a lapsed or missing one leaves the present size, and a held pool never gets a larger target than that |
| HostAdmission.HostState.DropReservations | scripts/subgov_host_capacity.py:228-232 | keeps exactly the reservations that are fresh and not yet met by running workers |
| HostAdmission.HostState.Decide | scripts/subgov_host_capacity.py:199-242 | the whole new state; failures leave reservations alone; otherwise the split follows the requests on file, and grant and reservations are those of the pool |
| HostAdmission.HostState.Admission | scripts/subgov_host_capacity.py:246-273 | the grant, reservations, requests and history of a decision that is made; one that cannot be made holds the caller's count, lets it shrink, leaves reservations alone and restarts the pressure clock |
| HostAdmission.GrantFits | scripts/subgov_host_capacity.py:233-239 | a grant above the pool's size is only given without pressure, unknown demand or an open reservation, and fits the budget beside all that other pools occupy |
| HostFleet.DecisionIsTurn | scripts/subgov_host_capacity.py:223-239 | a decision of the state-file class is a step of the fleet: the same grant, the same reservations left behind |
| HostFleet.LaunchFits | scripts/subgov_host_capacity.py:223-239 | a turn that launches leaves running plus in-flight workers of all pools within its budget |
| HostFleet.StepKeepsInv | scripts/subgov_host_capacity.py:223-239 | every step keeps every pool with launches in flight covered by a reservation |
| HostFleet.FleetStaysInBudget | scripts/subgov_host_capacity.py:199-242 | over any run of turns, late appearances, deaths and failed launches the total stays within the limit, or never grows if it starts above |
| HostFleet.ReservationCoversExactlyWhenAdapterSeesAll | scripts/codex-productive.py:340-391 | the reservation covers the pool after a launch if and only if the adapter's own count misses no running worker |
| HostFleet.BlindAdapterOvershoots | scripts/codex-productive.py:340-391 | the least case that fails this: an adapter that sees none of one worker launches two and passes the budget |
| HostFleet.TurnKeepsCoverExactly | scripts/subgov_host_capacity.py:223-239 | a turn leaves a pool covered if and only if its launches are inside their window or its own new grant has room for old and new ones; the invariant is kept exactly when that holds of every pool |
| HostFleet.LateLaunchOvershoots | scripts/subgov_host_capacity.py:228-232 | the least instance that is not covered: one slot, one launch in flight past 900 seconds, and a second worker launched |
| Distribution.BasesFit | src/placement.rs:260-280 | rounded-down shares never sum past the target, zero total headroom included |
| Distribution.Best | src/placement.rs:284-299 | the first host in ascending order with the highest score among those with room, or none when all are at their ceilings |
| Distribution.Distribute | src/placement.rs:253-308 | terminates; exactly min(target, eligible ceilings), none past a ceiling, nothing for ineligible hosts, at least the rounded-down share, and every further worker to a host ahead of all with room |
| Distribution.ShortfallGoesByHeadroom | src/placement.rs:283-304 | of two hosts with room, the one that got a worker beyond its share had more headroom minus used ceiling than the other is left with, or as much and the smaller name |
| Distribution.AtLeastTheShare | src/placement.rs:310-316 | a host below its ceiling gets at least its proportional part of the target, rounded down |
| Distribution.DistributionIsUnique | src/placement.rs:253-308 | those promises fix the split, so no order of hosts or iteration can change it |
| Placement.Reading | src/placement.rs:192-219 | headroom is within [0, 1], zero when stale; a host without a source is always fresh |
| Placement.ReadingIsScarcest | src/placement.rs:209-218 | headroom is at least x exactly when x of the processors and x of the memory beyond the reserve are free |
| Placement.StepLimitMoves | src/placement.rs:221-233 | the ceiling always holds; a host moves toward its goal, never past it, within its step limits, and makes progress when they allow it |
| Placement.SaturatingTotal | src/placement.rs:116-118 | the saturating fold is the capped exact sum |
| Placement.Place | src/placement.rs:47-188 | fails only without hosts; ineligible hosts' workers are set aside, the rest is distributed, every host steps toward its part |
| Placement.PlacementBounds | src/placement.rs:163-187 | no host past its ceiling or step limits, no ineligible host raised |
| Placement.PlacementFollowsConfig | src/placement.rs:70-99 | in the configuration's terms: own ceiling and steps or the fleet's, no workers where none are reported, no raise of a host whose resources are unread, stale or used up |
| Placement.GoalsFit | src/placement.rs:110-161 | with some host eligible the hosts' goals together fit the account's target, except exactly when a stable account's ineligible hosts hold more workers than 32 bits can count |
| Placement.PlacedTotal | src/placement.rs:163-187 | what is placed is the goals, plus what down-steps hold on to, less what up-steps hold back |
| Placement.TargetKeptExactly | src/placement.rs:163-187 | the account's target is kept if and only if what down-steps will hold on to fits in what the goals leave of it plus what up-steps will hold back |
| Placement.TotalWithinHeld | src/placement.rs:110-187 | the target is passed by at most what down-steps hold on to less what up-steps hold back, if and only if the goals fit it |
| Placement.PlacementSettles | src/placement.rs:104-187 | with all hosts eligible and movable, repeating placement reaches the distributed split within the largest distance in cycles, and stays |
| Placement.PlacementCanExceedTarget | src/placement.rs:163-187 | an instance that breaks the condition: a stable target of ten places fourteen workers |
| AccountSplit.TableOfHosts | src/federation.rs:921-952 | with unique ids the tables hold exactly the hosts' figures |
| AccountSplit.OrderOfHostsIsLost | src/federation.rs:918-952 | the same hosts in another order give the same tables |
| AccountSplit.SplitAccountTotal | src/federation.rs:917-991 | the split of the total: present workers kept and the surplus distributed, or the whole total over the hosts with demand |
| AccountSplit.GrowingSplit | src/federation.rs:962-976 | no host loses a worker or passes its cap by growing; the sum is min(total, workers + spare caps) |
| AccountSplit.NoDemandNoSpare | src/federation.rs:933-942 | a host without ready demand has no room for more, so it keeps exactly its workers while growing and is not served while shrinking |
| AccountSplit.ShrinkingSplit | src/federation.rs:977-984 | hosts without demand get nothing, none passes its cap, the sum is min(total, caps of hosts with demand) |
| AccountSplit.SharesWithinTotalExactly | src/federation.rs:911-917 | the shares stay within the total if and only if the total is below 2^32 - 1 or the present workers can be counted in 32 bits |
| AccountSplit.SharesPassTotal | src/federation.rs:911-917 | the least case that fails this: the largest total does split, and every split keeps one worker more |
| AccountSplit.SplitIsUnique | src/federation.rs:917-991 | equal inputs have one split |
| SharedTotal.FreshestIsNewest | src/federation.rs:858-875 | the chosen sample is held, and none is fresher under time, fraction and window order |
| SharedTotal.OrderOfSamplesIsLost | src/federation.rs:858-895 | samples in any order give the same freshest sample and fraction, if equal keys agree on the reset time |
| SharedTotal.UsedFractionIsConservative | src/federation.rs:884-895 | the fraction used is a held one: the freshest while no sample is more than 0.05 above it, and the largest of all otherwise |
| SharedTotal.OlderSampleNeverLowers | src/federation.rs:884-895 | a sample no fresher than the freshest never lowers the fraction |
| SharedTotal.SharedAccountTotal | src/federation.rs:1004-1058 | the controller's total over the saturating sum of all workers, and its split |
| SharedTotal.TotalUsesReportedFraction | src/federation.rs:1015-1034 | the total is the controller's answer for one unreached window at the reported fraction, under name, reset and time of a sample none is fresher than |
| SharedTotal.SpentFractionStepsDown | src/federation.rs:1017-1034 | a reported fraction at or over the target, a disagreeing peer's included, takes the total one full step toward the floor |
| SharedTotal.NoSampleHolds | src/federation.rs:1035-1051 | without a sample the total holds at what all hosts run, or steps toward the floor |
| SharedTotal.InstancesAgree | src/federation.rs:993-1058 | two hosts with the same views and samples in any order derive the same decision |
| SharedTotal.OwnSharesStayWithinTotal | src/federation.rs:1000-1003 | hosts each actuating only their own entry of their own decision stay within the one total |
| SeedOrder.OccupancyCountsAllExactly | scripts/subgov_ready_beads.py:350-350 | a workspace's occupancy counts all its workers if and only if no earlier spelling of its path held any |
| SeedOrder.SecondSpellingHides | scripts/subgov_ready_beads.py:350-350 | the least case that fails this: the worker under the first of two spellings is not counted |
| SeedOrder.SeedOrder | scripts/subgov_ready_beads.py:346-358 | as many seeds as jobs, each a ready workspace no other is less occupied than, ties to the smaller path |
| SeedOrder.SeedsArePermutation | scripts/subgov_ready_beads.py:352-358 | the output is a permutation of the jobs' workspaces |
| SeedOrder.LevelsNeverDecrease | scripts/subgov_ready_beads.py:352-358 | occupancies at pick never decrease |
| SeedOrder.EveryPrefixIsOptimal | scripts/subgov_ready_beads.py:328-358 | for every k the first k seeds minimise the largest resulting occupancy over all ways to place k workers within the ready counts |
| Peers.PeerTable.Ingest | src/federation.rs:595-626 | which records are refused and why; a refusal changes nothing |
| Peers.AcceptedExactly | src/federation.rs:600-620 | a record is accepted exactly when fetched, from a configured peer, written by it, and less than 301 seconds ahead; which refusal is given otherwise |
| Peers.PeerTable.Freshness | src/federation.rs:631-654 | the peer's class by age, and the one event its expiry queues |
| Peers.PeerTable.AnyPeerStale | src/federation.rs:659-664 | true exactly when some configured peer is stale; leaves the table as questions in ascending order up to the first stale peer leave it |
| Peers.PeerTable.ClampScaleUp | src/federation.rs:669-675 | capped at the present size exactly while some peer is stale, with the same effect on the table |
| Peers.SweepIsAsks | src/federation.rs:659-664 | a sweep over the peers is a list of questions at one moment, and nothing more |
| Peers.EventsAreAnnouncements | src/federation.rs:628-664 | every call queues exactly one event for each peer whose expiry it announces, at its own moment, and no other |
| Peers.PeerTable.PeerAccountWorkers | src/federation.rs:682-711 | what the peer last published while fresh or stale, zero once expired |
| Peers.FreshnessOnlyFalls | src/federation.rs:631-654 | over runs of every call, sweeps included, a peer only moves from fresh to stale to expired until a record is accepted |
| Peers.AcceptedIsFresh | src/federation.rs:621-625 | an accepted record makes the peer fresh for exactly the staleness bound |
| Peers.ExpiryAnnouncedOnce | src/federation.rs:639-645 | an expiry is announced at an age of at least the bound, and twice only with an accepted record in between |
| Peers.ExpiryIsAnnounced | src/federation.rs:639-645 | by the first question after it, an expiry has been announced |
| Backpressure.PoolDecision.ApplyBackpressure | src/controller.rs:187-269 | the next state, the capped decision, which is never raised, and the pool total kept in step |
| Backpressure.CapBrakes | src/controller.rs:245-252 | a held pool never grows, a stepping-down one loses at least one worker unless at its floor, and a decision that asks for less is left alone |
| Backpressure.RunStaysSound | src/controller.rs:203-237 | the stored quiet count stays below the policy's over every run |
| Backpressure.RunNeeds | src/controller.rs:203-237 | without a signal-loss release each unit of recovery takes one quiet reading |
| Backpressure.StepDownRecoversSlowly | src/controller.rs:226-237 | from stepping down back to normal takes at least twice the policy's count of quiet readings |
| Backpressure.ReleaseFollowsQuiet | src/controller.rs:212-225 | the brake comes off only after the policy's count of quiet readings, the last usable ones |
| Backpressure.OneModeAtATime | src/controller.rs:205-237 | one reading never moves normal to stepping down; each worse mode is entered exactly above its threshold |
| Saturation.Collector.UpdateSaturation | scripts/zai-collector.py:135-178 | when a scrape yields a measurement, which, and what baseline it leaves |
| Saturation.MeasuredExactly | scripts/zai-collector.py:141-163 | in the counters themselves: measured exactly when all replicas advanced far enough without a restart or a fall, and what was turned away, failed or completed adds up to no more than was asked for |
| Saturation.AttemptsAddUp | scripts/zai-collector.py:159-161 | requests and retries together are attempts or were turned away for capacity, summed over all replicas |
| Saturation.ConcurrencyIsOfAttempts | scripts/zai-collector.py:164-178 | the concurrency fraction is given exactly from the minimum of attempts on where all replicas classify, and is that part of the attempts |
| Saturation.RejectionIsOfAttempts | scripts/zai-collector.py:170-176 | the same for rejections, exactly where every replica reports a count that did not fall |
| Saturation.WindowIsLongestInterval | scripts/zai-collector.py:165-165 | the window is the longest replica's interval, to the nearest second, the even one halfway |
| Saturation.FractionsAreShares | scripts/zai-collector.py:159-178 | completed requests are within the attempts and both fractions within [0, 1] |
| Saturation.EmissionsCompareLikeWithLike | scripts/zai-collector.py:141-158 | every measurement compares the same membership and processes, each elapsed time within the limits |
| Saturation.EmissionsAreDisjoint | scripts/zai-collector.py:152-160 | two measurements never share any part of a run |
| Saturation.MeasurementsTelescope | scripts/zai-collector.py:141-160 | over any run the measurements count at most what each process's counter rose by; resets only drop |
| Controller.WorkersForRateIsLeast | src/controller.rs:971-983 | the least number of workers whose joint rate, with a billionth of a worker more, exceeds the required one |
| Controller.WindowAsks | src/controller.rs:334-389 | what one window asks for, in its own figures: the floor when spent, the present size when due or unmeasured, the ceiling when unpaced, the bootstrap count without sample and worker, and otherwise the least count whose measured burn uses its target up by the reset; within the fleet's bounds |
| Controller.DisabledWindowIsSilent | src/config.rs:774-778 | a window asks for nothing exactly when its override switches it off |
| Controller.BindingIsFirstLeast | src/controller.rs:405-414 | the binding window is the first of those that want the fewest workers |
| Controller.Evaluate | src/controller.rs:271-481 | the loop over the windows computes the evaluation that `WindowAsks`, `FreshDecision`, `StaleDecision` and the rows below pin down |
| Controller.FreshDecision | src/controller.rs:402-467 | on fresh data the first window asking for the fewest binds, and the decision goes as far toward that count, capped by the backlog, as one step may |
| Controller.StaleDecision | src/controller.rs:285-310 | on stale data the present size is held, or the floor approached by one step |
| Controller.UndecidedExactly | src/controller.rs:318-322 | no decision is reached exactly when every window is switched off |
| Controller.SpentWindowStepsDown | src/controller.rs:334-335 | one window that is reached or at its target takes the fleet one full step toward its floor, whatever the others ask for |
| Controller.PoolDecision | src/controller.rs:159-183 | unowned workers count toward what the windows ask for, and the elastic part steps toward what they leave of it |
| Controller.EvaluationBounds | src/controller.rs:285-310 | in range, within both step limits, no growth on stale data, none past the backlog |
| Controller.PoolKeepsRange | src/controller.rs:159-183 | in elastic terms the result stays under ceiling and up-step, does not grow on stale data and adds up to the pool's target; the elastic size is the caller's count if and only if the pool can be counted in 32 bits, and then floor and down-step are kept too |
| Controller.PoolKeepsFloorExactly | src/controller.rs:171-182 | the floor is kept if and only if floor and unowned workers can be added in 32 bits |
| Controller.PoolKeepsDownStepExactly | src/controller.rs:159-183 | all decisions about a fleet's pool keep its down-step if and only if owned and unowned workers can be added in 32 bits, or a full step down would end at or below both the floor and what 32 bits leave beside the unowned workers |
| Controller.HeldPoolLosesWorker | src/controller.rs:290-310 | the least case that fails both: a stale hold with a floor of two and no down-step yields one worker |
| Controller.MoreWindowsNeverRaise | src/controller.rs:405-414 | one more window anywhere in a fresh snapshot never raises the result |
| Overlap.ResolveWorkspaceOverlap | src/ownership.rs:257-299 | exactly the contested workspaces that another host keeps are excluded, with one event each, in path order |
| Overlap.ClaimantsAreListing | src/ownership.rs:266-277 | every host that lists an origin sees the same claimants |
| Overlap.ContestedKeptByOwnerOnly | src/ownership.rs:125-134 | of the hosts listing a contested origin exactly its owner keeps it |
| Overlap.KeepersAreOwner | src/ownership.rs:257-299 | the keepers of a contested origin are its owner alone, or nobody when the owner does not list it |
| Overlap.LowestOrNamedKeeps | src/ownership.rs:125-134 | a contested origin is kept by the lowest host that lists it, or by its named owner alone if that lists it |
| Overlap.UncontestedIsKept | src/ownership.rs:278-280 | an origin no other host lists is never given up |
| LaneInstall.LocatedInText | scripts/codex-productive.py:453-468 | in the text of the lines, by code points: the lanes are those of the first `lanes:` in the first `pluck:` of the first `strands:`, as far as the lines look like rows |
| LaneInstall.NamesInText | scripts/codex-productive.py:442-443 | which characters a label and a worker name may hold |
| LaneInstall.RefusedExactly | scripts/codex-productive.py:470-483 | a readable file is refused exactly when the own label is on two lanes or on one that differs, or, to install, when another lane has one of the workers |
| LaneInstall.ParsedRowsRender | scripts/codex-productive.py:468-472 | what is read as entries renders to the same lines |
| LaneInstall.ParseAppended | scripts/codex-productive.py:468-473 | rows with a block appended read as the old entries followed by the block's |
| LaneInstall.LocateInserted | scripts/codex-productive.py:453-468 | an inserted block leaves the list of lanes where it was, longer by the block |
| LaneInstall.RemoveUndoesInstall | scripts/codex-productive.py:437-491 | where the block was inserted, removing it restores every line and installing it again changes nothing |
| LaneInstall.LocateRemoved | scripts/codex-productive.py:453-468 | removed rows leave the list of lanes where it was, shorter by them, unless the header would swallow a blank line |
| LaneInstall.InstallUndoesRemoveExactly | scripts/codex-productive.py:473-490 | removing the lane and installing it again gives back the file if and only if it was the last lane, shares no worker with another, and does not leave an empty list before a blank line |
| LaneInstall.EarlierLaneMoves | scripts/codex-productive.py:473-490 | the least file that does not come back: the first of two lanes is put behind the second |
| LaneInstall.InstallRestoresTextExactly | scripts/codex-productive.py:441-491 | the same condition for the text of the file: it is given back character by character if and only if the lines come back |
| LaneInstall.RemoveRestoresText | scripts/codex-productive.py:441-491 | for the text of any file the lane is installed in, removing it gives back the text character by character, and installing it again changes nothing |
| BurnHistory.InsertedIsLast | src/dashboard.rs:359-370 | sorted and without repeats, the samples up to the current time end with the current one |
| BurnHistory.DedupKeepsReadings | src/dashboard.rs:365-370 | no two samples kept in a row are the same reading, and every sample given is the same reading as one kept |
| BurnHistory.CompatibleHistory | src/dashboard.rs:338-396 | the longest run of usable, linked samples that ends at the current time |
| BurnHistory.ChainInFigures | src/dashboard.rs:371-395 | in milliseconds and fractions: every sample kept fits and succeeds the one before it, and the one before the first does not |
| BurnHistory.MeasuredRate | src/dashboard.rs:398-428 | the rate from the longest chain's first sample, or too short exactly when that is too recent; never negative, never over more than the lookback; no history exactly when the current sample is unusable |
| BurnHistory.RateCoversRise | src/dashboard.rs:411-422 | sustained over the seconds reported, the rate is what usage rose by since the base; too short exactly below the minimum of whole seconds |
| BurnHistory.LongestChainIsOne | src/dashboard.rs:371-395 | there is only one longest chain |

## Left out

- Expired peers and partitions in the launch gate: the code counts such peers as zero on purpose.
- Placement of one account over several configured hosts in the launch gate: the gated host runs a single local fleet.
- Hosts joining or leaving, and a pool's other accounts: the protocol model has one account and a fixed set of hosts.
- Launch capacity and clock-skew refusals inside the re-pull: each is a failed cycle, which the gate model abandons.
- `publish_pending_launches` with legacy entries: a legacy count is carried in the data type but no host of the protocol writes one.
- Floating-point rounding in headroom weights, shares, rates and thresholds: exact reals instead.
- Banked-reset pacing, exogenous-burn estimation and advisories: the controller is modelled with banked resets off.
- The rolling burn estimate of one window: an arbitrary positive rate per window stands for it.
- The redemption latch, state files, JSON, locks, atomic renames, process and systemd probes: values passed in, or variables.
- `ready_count`: a pool's ready demand is passed in as known or unknown.
- Events other than those the model needs (overlap and expiry): the decision-event surface is output only.
- `stop_idle`, adoption and takeover retirement: they rest on heartbeats the code cannot check.
- YAML configuration beyond the lanes block, the CLI, metrics, dashboards' rendering: mostly easy members.
- Line endings of the lanes file: the code reads it in text mode, so carriage returns are already gone from the text modelled here.
