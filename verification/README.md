# Easy Proxies: a verified model

Easy Proxies turns a list of upstream proxy URIs into a running sing-box instance: one
pooled HTTP entry point (pool mode), one entry point per node (multi-port mode), or both
(hybrid mode). This project models the parts of it that are hard to get right and proves
what they promise:

- **The failover pool** (`Pool.dfy`, `PoolSpec.dfy`, `SharedState.dfy`, `Monitor.dfy`, `Store.dfy`):
  candidate picking, three scheduling modes, at most three attempts per dial, failure
  counting, the lazily expiring blacklist and its mirror in the monitor, and the load of a
  member over runs of dials and closes (`Loads.dfy`). Classes that change in place are tied to
  functions on views, and the theorems are about those functions.
- **Fairness** (`Scheduling.dfy`) of round robin and of least-loaded-first.
- **Connection accounting under interleaving** (`Conservation.dfy`): a state machine in
  which the two counters of one increment are separate steps, and pools, closes,
  registrations and resets interleave freely.
- **The port allocators** (`Ports.dfy`, `Allocation.dfy`, `Config.dfy`, `PortTheorems.dfy`):
  four search loops over `uint16` with wrap-around.
- **The compiler** (`Builder.dfy`, `NodeFilter.dfy`, `Tags.dfy`) and its meaning
  (`Routing.dfy`, `EntryPoints.dfy`): where a connection that arrives on a port ends up, and
  who may make it.
- **The box manager** (`Registry.dfy`, `RegistryTheorems.dfy`, `BoxManager.dfy`): node create, update and delete with
  undo, conflict repair, reload and rollback.
- **Subscription refresh** (`SubscriptionRefresh.dfy`, `RefreshProtocol.dfy`): the
  configuration a refresh builds, and the loop with its two channels as a step protocol.
- **The nodes file** (`NodesFile.dfy`, `NodesWatch.dfy`, `Text.dfy`): printing and parsing,
  and noticing that it was edited.
- **Concrete failures** (`Counterexamples.dfy`).

`dafny verify dfyconfig.toml` checks everything.

## Conventions

A method that changes state states its new state through a function of the old one; lemmas
then say what that function guarantees, down to the fields and characters of its results. Ports are numbers below 65536 that wrap. The set of
bindable ports is fixed during one call. Time is a natural number. What the outside decides
(whether a box starts, a URI translates, a save works, a dial succeeds, which random number
comes up) is a parameter.

## What the code does not do

These are results about the code as it is. Each has its exact condition and, in
`Counterexamples.dfy` unless another place is named, a concrete input.

- The guards `port > 65535` never fire: a search ends at a free port or never
  (`WalkStopsIffSomePortIsFree`), so a normalisation with fewer free ports than nodes in need
  never returns (`NormalizationEndsIff`; at `NothingBindableNeverReturns`). Methods require
  that the searches they make end.
- A search that runs past 65535 hands out port 0 (`PortZeroIsAssignedIff`,
  `FixUpHandsOutZeroIff`, `RepairHandsOutZeroIff`; at `WalkWrapsToZero`).
- Ports assigned before normalisation are not avoided by it (`NormalizedDistinctIff`), so a
  multi-port subscription refresh can put two nodes on one port (`RefreshDistinctIff`; at
  `SubscriptionRefresh.ReorderedRefreshCollides`).
- The counter of a multi-port refresh wraps, and the first refresh of a configuration without
  nodes leaves a node on port 0 when it does (`RefreshOnZeroIff`; at
  `FirstRefreshWrapsToZero`).
- A refresh of a hybrid configuration in which no node has a port leaves every node on port 0,
  because an empty port map skips normalisation (`HybridRefreshSafeIff`; at
  `FirstHybridRefreshLeavesZero`). So does every refresh after it (`RefreshesStayOnZero`; at
  `NextHybridRefreshLeavesZero`).
- Two nodes that share a URI do not keep separate ports across a reload
  (`OwnPortMapRoundTrip`; at `SharedUriLosesAPort`).
- Creating or updating a node in hybrid mode does not check its port, neither against other
  nodes nor against the listener (`UncheckedCreatePortsIff`, `UncheckedUpdatePortsIff`; at
  `HybridCreateCollides`, `HybridUpdateCollides`).
- Two tags can coincide (`TagsDistinctIff`; at `ThreeNamesTwoTags`), and a node name can take
  a reserved tag (`OutboundTagsDistinctIff`; at `ReservedNameCollides`).
- When ten nodes have to move, because something else holds their ports or because they share
  them, a reload succeeds holding a closed box (`ExhaustedIff`; at `TenHeldPortsExhaust`, and
  at `FrontedRefreshExhausts`, a multi-port refresh that puts ten new nodes in front of ten
  known ones, no port being held).
- `RefreshNow` can report success before its own request was served
  (`UnservedReturnIff`; at `RefreshProtocol.StaleReturnHappens`).
- Saving an unchanged list after a refresh can be reported as an edit of the nodes file, and
  a real edit is reported by one check only, to whoever asks for the status first
  (`RewriteReportedIff`, `ReportedOnce`; at `SameListLooksEdited`).
- A node created with an untrimmed name decoded from its URI cannot be deleted by that name
  (`DeleteUndoesCreateIff`; at `SpacedNameStays`).
- A location filter is ignored when no location is known (`FilterIgnoredIff`; at
  `LocationFilterIgnored`).
- Dropping the monitor's table without the store would make a counter negative (at
  `Conservation.NodesResetAloneGoesNegative`); `Reload` drops both, store first.
- The design notes under `docs` describe draining the old instance before a switch; the code
  closes it first, and so does the model.

## Model

| member | source | states |
|---|---|---|
| PoolSpec.PickFailsIff | internal/outbound/pool/pool.go:465-494 | picking finds no candidate if and only if every member was found dead by its check, is blacklisted or lacks the network, and either some member is not blacklisted or each was found dead or lacks the network |
| PoolSpec.PickListsUsable | internal/outbound/pool/pool.go:496-516 | as soon as some member was not found dead (`checked` and not `available`), is not blacklisted at this time and has the network, the candidates are exactly the members like that, in member order, and nothing changes but, in both places, blacklists that have run out |
| PoolSpec.PickReleasesAll | internal/outbound/pool/pool.go:518-536 | when every member is blacklisted, each is released in both places with no failures and its load kept, and the candidates are exactly the members not found dead that have the network |
| PoolSpec.PickReleasesNone | internal/outbound/pool/pool.go:518-536 | with an unblacklisted member but none fit to dial, nothing is released, picking fails, and exactly which blacklists that have run out are cleared |
| PoolSpec.PickedAreUsable | internal/outbound/pool/pool.go:465-516 | whichever way picking went, the candidates are exactly the members then not found dead, not blacklisted and on the network |
| PoolSpec.CheckingIsInvisible | internal/outbound/pool/shared_state.go:99-115 | clearing an expired blacklist changes no later answer, failure count or load |
| PoolSpec.FailoverContract | internal/outbound/pool/pool.go:331-378 | attempts stop at the first success; each failed member gets one failure and net-zero load, the winner one connection and no failures, nobody else changes; an error means all attempts failed and is the last one |
| PoolSpec.OrdersCoverCandidates | internal/outbound/pool/pool.go:345-378 | in every mode the order of attempts is a duplicate-free arrangement of exactly the candidates |
| PoolSpec.DialContract | internal/outbound/pool/pool.go:319-385 | a whole dial, in any mode: at most three different candidates tried, up to the first success, with the exact effect on every field of every member's shared state and monitor entry; without candidates, an error and nothing more |
| PoolSpec.TriedAreLeastLoaded | internal/outbound/pool/pool.go:355-370 | in balance mode no candidate left untried after three has fewer connections than a tried one |
| PoolSpec.SelectedIsTriedFirst | internal/outbound/pool/pool.go:538-563 | the single-member selection agrees with the dial on where to begin |
| Loads.LoadsAreConnections | internal/outbound/pool/shared_state.go:129-141 | over any sequence of whole dials, in any modes, and closes, a member's load is what it was, plus the dials that connected through it, minus the closes, in the shared state and in the monitor entry alike |
| Loads.ActiveOnFields | internal/monitor/manager.go:527-533 | moving a load moves both counters and no other field |
| Pool.PoolOutbound.AvailableMembers | internal/outbound/pool/pool.go:496-516 | fills the buffer with exactly the available members and leaves every member checked as the scan does |
| Pool.PoolOutbound.ReleaseIfAllBlacklisted | internal/outbound/pool/pool.go:518-536 | releases every member if and only if there are members and all are blacklisted; otherwise asks up to the first open one |
| Pool.PoolOutbound.PickCandidates | internal/outbound/pool/pool.go:465-494 | the buffer and all member views are those of the picking function |
| Pool.Shuffle | internal/outbound/pool/pool.go:346-350 | any random numbers give a permutation of the candidates |
| Pool.PoolOutbound.SortByLoad | internal/outbound/pool/pool.go:356-365 | in place: a permutation of the candidates in order of load |
| Pool.PoolOutbound.TryMember | internal/outbound/pool/pool.go:331-343 | one attempt: load up, then either down again with a failure recorded, or a success recorded |
| Pool.PoolOutbound.TryInTurn | internal/outbound/pool/pool.go:371-384 | the attempt loop, going round from a start, computes the attempt function on the rotated candidates |
| Pool.PoolOutbound.LineUp | internal/outbound/pool/pool.go:345-372 | arranges the candidates by mode and advances the counter in sequential mode only |
| Pool.PoolOutbound.DialContext | internal/outbound/pool/pool.go:319-385 | the dial: views, result, counter and the tracked connection of the member that connected |
| Pool.PoolOutbound.ListenPacket | internal/outbound/pool/pool.go:387-453 | the same over UDP |
| Pool.PoolOutbound.SelectMember | internal/outbound/pool/pool.go:538-563 | the member at the counter, at the random number, or the first least loaded one |
| Pool.TrackedConn.Close | internal/outbound/pool/pool.go:741-763 | the first close gives the load back, any later one does nothing |
| Pool.TurnOf | internal/outbound/pool/pool.go:373-376 | index `(start + i) % n` walks the rotation of the candidates |
| Scheduling.SequentialOrder | internal/outbound/pool/pool.go:371-378 | attempt `i` goes to the candidate `i` places past the start |
| Scheduling.SuccessiveStartsIff | internal/outbound/pool/pool.go:372 | successive dials start on successive candidates except, unless the number of candidates divides 2^32, where the counter wraps |
| Scheduling.RoundRobinIsFair | internal/outbound/pool/pool.go:326-378 | over `k * n` dials on the same `n` candidates without a counter wrap, each candidate comes first exactly `k` times and, all attempts failing, is tried exactly `k * min(3, n)` times |
| Scheduling.FailuresAreShared | internal/outbound/pool/pool.go:319-385 | over `k * n` whole sequential dials, picking included, all attempts failing: when the `n` members usable at first have more than `k * min(3, n)` failures to spare and no other blacklist runs out, each gets exactly `k * min(3, n)` more failures, in the shared state and in the monitor, and none is blacklisted |
| Scheduling.SequentialDialIsDial | internal/outbound/pool/pool.go:319-385 | the dial repeated there is the one the pool makes in sequential mode |
| Scheduling.OccursIsHits | internal/outbound/pool/pool.go:371-378 | how often a member occurs among the attempts of a dial is how often the counter hits its position |
| Scheduling.BalancedDialKeepsSpread | internal/outbound/pool/pool.go:355-370 | a successful balanced dial goes to a least loaded candidate and does not widen a spread of one or more |
| Scheduling.BalanceStaysTight | internal/outbound/pool/pool.go:319-385 | over any number of whole balanced dials, picking included, whose first attempt succeeds: loads of the members usable at first stay within their first spread or 1, and the total grows by one per dial, while no other blacklist runs out |
| Scheduling.DialFirstIsTry | internal/outbound/pool/pool.go:331-343 | the step of the balance argument is the pool's own attempt |
| SharedState.SharedMemberState.RecordFailure | internal/outbound/pool/shared_state.go:64-86 | counts, triggers at the threshold and mirrors, exactly as the view function; returns the count reached |
| SharedState.SharedMemberState.RecordSuccess | internal/outbound/pool/shared_state.go:88-96 | clears the failures and mirrors the success |
| SharedState.SharedMemberState.IsBlacklisted | internal/outbound/pool/shared_state.go:99-115 | answers whether the deadline has passed, clearing an expired blacklist in both places |
| SharedState.SharedMemberState.ForceRelease | internal/outbound/pool/shared_state.go:117-127 | clears failures and blacklist in both places |
| SharedState.SharedMemberState.AddActive | internal/outbound/pool/shared_state.go:129-141 | moves both load counters |
| SharedState.SharedMemberState.AttachEntry | internal/outbound/pool/shared_state.go:51-56 | a missing entry leaves the attachment alone |
| SharedState.BlacklistFollowsHistory | internal/outbound/pool/shared_state.go:64-127 | over any history with a clock that never runs back, the failure count is the current failure run modulo the threshold and the stored blacklist is the latest deadline, or none once it has passed |
| SharedState.LazyExpiryIsExact | internal/outbound/pool/shared_state.go:99-115 | lazily expiring blacklists answer exactly as eager ones: the latest trigger since the last release has not passed |
| SharedState.OpMirrorsIff | internal/outbound/pool/shared_state.go:64-127 | an operation leaves the mirror equal to the blacklist exactly when it was before or the operation rewrites it |
| SharedState.MirrorFollowsHistory | internal/outbound/pool/shared_state.go:64-127 | while operations on a tag do not overlap, its monitor entry always shows the blacklist the history dictates |
| Store.Tables.Acquire | internal/outbound/pool/shared_state.go:24-32 | the state of a tag, made fresh on first use and the same ever after |
| Store.Tables.Register | internal/monitor/manager.go:316-330 | the entry of a tag, likewise |
| Store.Tables.MakeMembers | internal/outbound/pool/pool.go:192-242 | a member for each tag with the state and entry of that tag, nothing in the tables lost, replaced or added but for these tags, or the first tag without an outbound; the members may be dialled as the pool model requires exactly when their tags differ |
| Store.Tables.ReadyIff | internal/outbound/pool/pool.go:192-242 | members of the tables are free of overlap exactly when their tags differ |
| Conservation.ActiveIsConserved | internal/outbound/pool/shared_state.go:129-141 | in every reachable state a shared counter is exactly the attempts in flight plus the connections open, so never negative |
| Conservation.EntryIsSumOfShared | internal/outbound/pool/shared_state.go:129-141 | in every reachable state an entry's counter is never negative and is the sum of the attached shared counters, less tokens between raising one and the other, plus tokens between lowering them |
| Conservation.QuietEntryIsSum | internal/monitor/manager.go:527-533 | with no token between its two counters the entry is exactly the sum of the attached shared counters |
| Conservation.CloseAgainIsNoOp | internal/outbound/pool/pool.go:747-763 | once a connection is closed, closing it after any further steps changes nothing |
| Conservation.TakeKeepsInv | internal/outbound/pool/pool.go:332-343 | every step, from registration to reset, keeps both counters equal to what is in flight |
| Conservation.NodesResetAloneGoesNegative | internal/boxmgr/manager.go:200-205 | with the monitor table dropped but the store kept, a run that leaves an entry at -1 |
| Monitor.Entry.AppendTimeline | internal/monitor/manager.go:498-511 | the in-place shift drops the oldest event once twenty are held |
| Monitor.Entry.RecordFailure | internal/monitor/manager.go:467-475 | counter, last error, time and timeline |
| Monitor.Entry.RecordSuccess | internal/monitor/manager.go:477-483 | counter, time and timeline |
| Monitor.Entry.RecordSuccessWithLatency | internal/monitor/manager.go:485-496 | the same with a latency, of which a positive one counts at least a millisecond |
| Monitor.TimelineIsRecentHistory | internal/monitor/manager.go:467-511 | after any history the timeline is its last twenty events in order, and the two counters split it |
| Monitor.EntryShowsLatest | internal/monitor/manager.go:467-496 | after any history an entry shows the latest failure's error and time, the latest success's time and the last latency measured, and its other fields are untouched |
| Monitor.EventFields | internal/monitor/manager.go:467-496 | what each recording puts on the timeline; latencies in whole milliseconds toward zero, a positive one at least one |
| Ports.WalkStopsIffSomePortIsFree | internal/config/config.go:622-631 | a walk over the wrapping ports stops exactly when some port is free; the `> 65535` guard plays no part |
| Ports.NextFreePort | internal/config/config.go:622-631 | the walk ends at the cyclically nearest port that is unused and bindable |
| Ports.FreshPortsAreTheNearest | internal/config/config.go:619-637 | a port is handed out if and only if it is free and fewer free ports precede it on the walk than are needed |
| Ports.FreshPortsAdvance | internal/config/config.go:619-637 | successive ports lie ever further along the walk |
| Ports.FreshPortsWrapIff | internal/config/config.go:622-631 | the walks stay at or above the cursor, and then increase, exactly when enough free ports lie there |
| Ports.ZeroIsHandedOutIff | internal/config/config.go:622-631 | port 0 is handed out exactly when too few free ports lie at or above the cursor |
| Allocation.FillAt | internal/config/config.go:619-637 | the n-th node in need receives the n-th port; every other node is kept |
| Allocation.FillDistinctIff | internal/config/config.go:619-637 | all ports are distinct exactly when the kept ones are, the new ones are, and no kept one is new |
| Allocation.RestartingIsHarmless | internal/config/config.go:479-502 | restarting every walk at the same port while tracking what was taken finds the same ports as moving a cursor |
| Allocation.NotTrackingIsHarmless | internal/config/config.go:452-467 | moving a cursor without tracking finds the same ports while the bindable ones outnumber the nodes |
| Allocation.FreshWalksEndIff | internal/config/config.go:619-637 | `k` walks from a moving cursor, noting what they take, all end exactly when there are `k` free ports |
| Allocation.RestartedWalksEndIff | internal/config/config.go:479-502 | the same for `k` walks from one port |
| Allocation.UntrackedWalksEndIff | internal/config/config.go:452-467 | walks that note nothing end exactly when some port binds or none is walked |
| Config.Config.BuildPortMap | internal/config/config.go:509-517 | every URI with a port, the last node of a URI winning |
| Config.Config.NormalizeWithPortMap | internal/config/config.go:521-653 | unsupported mode or missing URI reported with the state left as the code leaves it; otherwise mapped ports kept and the rest assigned as `Normalized` says |
| Config.Config.PrepareNodes | internal/config/config.go:580-617 | the first pass in place: trimmed, named, on the mapped port; stops at the first node without a URI |
| Config.Config.AssignFreshPorts | internal/config/config.go:619-646 | the second pass in place: fresh ports in node order, then default credentials |
| Config.Config.AssignLoadPorts | internal/config/config.go:452-473 | the load-time assignment in place |
| Config.Config.FixPoolPortConflicts | internal/config/config.go:479-502 | the hybrid fix-up in place: nodes on the listener's port move, all others stay |
| Config.Config.AppendNode | internal/boxmgr/manager.go:566 | the list grows by the node at its end, in place or in a larger array |
| Config.Config.RemoveNode | internal/boxmgr/manager.go:634 | the in-place shift removes exactly one node |
| PortTheorems.MappedPortsAreKept | internal/config/config.go:608-616 | a mapped URI keeps its port whatever the node's own port field says |
| PortTheorems.FreshAssignmentIsExact | internal/config/config.go:619-637 | a port is assigned afresh if and only if it is free and fewer free ports precede it than nodes need one |
| PortTheorems.FreshPortsFollowNodeOrder | internal/config/config.go:619-637 | fresh ports go up the walk in node order, and simply increase when there is room above the base |
| PortTheorems.NormalizationEndsIff | internal/config/config.go:619-646 | what `NormalizeWithPortMap` requires of the ports is exactly that every walk of its second pass ends |
| PortTheorems.NormalizedFields | internal/config/config.go:580-646 | every normalised node has its trimmed URI, its own trimmed name or else the one in its URI or else its number, its source, and the default credentials exactly when it listens and brings none |
| PortTheorems.NormalizedPort | internal/config/config.go:580-646 | and its mapped port, else its own, else a bindable one that is neither mapped nor the listener's; in pool mode its own or one counted up from the base |
| PortTheorems.DefaultsAre | internal/config/config.go:521-578 | which modes are accepted; the mode in its canonical spelling, ports 2323 and 28000 where none is given, all else kept; twice is once |
| PortTheorems.FreeIff | internal/config/config.go:580-617 | which ports count as free for a normalisation and for the fix-up, in terms of the inputs |
| PortTheorems.NormalizedDistinctIff | internal/config/config.go:580-640 | exactly when normalisation leaves no two nodes on one port |
| PortTheorems.PortZeroIsAssignedIff | internal/config/config.go:622-631 | some node ends on port 0 exactly when too few free ports lie at or above the base |
| PortTheorems.ListenerPortIsAvoidedIff | internal/config/config.go:580-640 | a hybrid node ends on the listener's port only if the map or its own field put it there |
| PortTheorems.ReloadAllocatesSafely | internal/config/config.go:521-653 | with a usable port map and every unmapped node without a port, all ports end up distinct and, in hybrid mode, off the listener's |
| PortTheorems.OwnPortMapRoundTrip | internal/config/config.go:509-517 | reloading with its own port map needs no free port and changes no port, exactly when nodes sharing a URI share a port |
| PortTheorems.LoadDistinctIff | internal/config/config.go:452-473 | load-time assignment leaves no two nodes on one port exactly when the bindable ports are enough, no two explicit ports are equal and none of them is near enough the base to be handed out |
| PortTheorems.LoadedFields | internal/config/config.go:452-473 | what loading makes of each field of a node |
| PortTheorems.FixUpResolvesConflicts | internal/config/config.go:479-502 | the fix-up changes only nodes on the listener's port, moves each to an unused bindable port, and keeps distinct ports distinct |
| PortTheorems.FixUpClearsListener | internal/config/config.go:479-502 | after the fix-up no node is on the listener's port |
| PortTheorems.FixUpIsExact | internal/config/config.go:479-502 | a port is handed out by the fix-up if and only if it is unused, bindable and fewer such ports precede it on the walk from the listener's than nodes are on it |
| PortTheorems.FixUpHandsOutZeroIff | internal/config/config.go:479-502 | the fix-up puts a node on port 0 exactly when nobody is there and too few unused bindable ports lie above the listener's |
| PortTheorems.PortMapOrigin | internal/config/config.go:509-517 | every port in the map is that of a node with the URI |
| PortTheorems.LastNodeWins | internal/config/config.go:509-517 | the port map has, for any URI, the port of the last node with that URI and a port |
| NodeFilter.NormalizePatterns | internal/config/config.go:208-221 | trimmed patterns without the empty ones |
| NodeFilter.FilterNodes | internal/config/config.go:137-206 | the loop returns the passing nodes, or all of them when a location filter finds no location at all |
| NodeFilter.PassingPositions | internal/config/config.go:137-206 | filtering keeps exactly the passing positions, in order |
| NodeFilter.FilterIgnoredIff | internal/config/config.go:197-203 | a node that fails the filter is enabled exactly when locations are asked for and none is known |
| NodeFilter.EnabledIff | internal/config/config.go:137-206 | a node is enabled exactly when some wanted pattern, trimmed and non-empty, is found anywhere in its name (its URI if it has none) or its location, as the target says, and no unwanted one is, or the location fallback applies |
| Tags.SanitizedIsSlug | internal/builder/builder.go:1069-1081 | a sanitized tag is empty or runs of `[a-z0-9]` joined by single dashes |
| Tags.SanitizeFixedIff | internal/builder/builder.go:1069-1081 | sanitizing changes nothing exactly on slugs, and twice is once |
| Tags.SanitizeIsScan | internal/builder/builder.go:1069-1081 | a tag is, for any name, its letters and digits in lower case with one dash wherever anything else stood between two of them |
| Tags.TagsCoincideIff | internal/builder/builder.go:55-62 | two positions get the same tag exactly when one shows its plain base and this is the other's base with a counter; never when their bases are equal |
| Tags.TagsDistinctIff | internal/builder/builder.go:47-62 | all tags differ exactly when no base is another base with a counter in use |
| Tags.SuffixedInjective | internal/builder/builder.go:58 | base and counter can be read back from a suffixed tag |
| Builder.CompileNodes | internal/builder/builder.go:47-87 | the loop with its usage counters computes tags, outbounds and metadata of the nodes that translate |
| Builder.AddNodeEntries | internal/builder/builder.go:146-194 | the loop adds one inbound, one pool of one and one rule for each member, in order |
| Builder.Build | internal/builder/builder.go:28-204 | every error in the order the code raises it, else the assembled tree |
| Routing.CompiledPositions | internal/builder/builder.go:47-87 | what is built is exactly the enabled nodes whose URI translates, in order, under the tags of their positions |
| Routing.OutboundTagsDistinctIff | internal/builder/builder.go:104-172 | the outbounds of the tree have different tags exactly when the tags are distinct, none is the pool's and none is the per-node pool tag of another |
| Routing.NodePortServesNode | internal/builder/builder.go:141-195 | a node's port, if it is not 0 and no other inbound has it, goes through its inbound, the first matching rule and its pool of one to exactly its outbound; otherwise nothing answers on it |
| Routing.ListenerServesAll | internal/builder/builder.go:118-138 | the listener, if its port is a real one that no node has, matches no per-node rule and reaches exactly the built nodes in order; otherwise nothing answers on it |
| Routing.PoolRouteOf | internal/builder/builder.go:118-195 | no rule names the pool's inbound, so it falls through to the final outbound |
| Routing.OtherPortsServeNothing | internal/builder/builder.go:118-195 | any other port serves nothing |
| Routing.EveryNodeServedIff | internal/builder/builder.go:141-195 | every node is served on its own port exactly when the ports differ, none is 0 and, in hybrid mode, none is the listener's |
| Routing.BuildPreservesMeaning | internal/builder/builder.go:28-204 | from configuration to tree: the port of any enabled node whose URI translates leads to exactly the outbound of that URI, unless it is 0 |
| Routing.PoolReachesEveryNode | internal/builder/builder.go:118-138 | from configuration to tree: the listener, on a real port that no node has, reaches the outbounds of exactly the enabled nodes whose URI translates, in order |
| Routing.BuiltTagsDistinct | internal/builder/builder.go:47-62 | built tags differ whenever no base tag is another with a counter in use |
| Routing.BasesAreSlugs | internal/builder/builder.go:49-53 | a base tag is the slug of the name or, where that is empty, the number of the node among those built |
| Routing.FindInboundIff | internal/boxmgr/manager.go:690-707 | an inbound answers on its port exactly when the port is not 0 and no other inbound has it |
| Routing.NamesClearFromBases | internal/builder/builder.go:47-62 | tags are clear of each other and of the pools' when no base tag is another with a counter in use and none is `proxy-pool` or starts with `proxy-pool-` |
| Routing.NamesClearFromNames | internal/builder/builder.go:47-62 | for names with a slug, the same condition on the slugs alone |
| Routing.KnownUriKeepsItsEntryPoint | internal/boxmgr/manager.go:662-675 | across a reload the port that the map has for a URI still leads to exactly the outbound of that URI |
| EntryPoints.AccessIsConfigured | internal/builder/builder.go:206-228 | whatever port an inbound of a built tree answers on, it listens on the parsed address of its own section and asks for exactly that section's credentials, or for none if the section has no username |
| EntryPoints.BuildSucceedsIff | internal/builder/builder.go:28-204 | a build succeeds, or fails with each of its errors, exactly when the configuration says so |
| EntryPoints.TreeIsConfigured | internal/builder/builder.go:104-204 | how many inbounds, outbounds and rules a built tree has, and where what no rule names goes |
| EntryPoints.ListenerPoolIsConfigured | internal/builder/builder.go:118-138 | the pool behind the listener has the configured settings and tells the monitor of each member its own name, URI, address and port |
| EntryPoints.NodePoolIsConfigured | internal/builder/builder.go:141-163 | the pool of one node is sequential, has the same limits and knows that node only |
| Registry.UnusedPortExists | internal/boxmgr/manager.go:798-820 | pigeonhole: with fewer than 65535 nodes a non-zero port is unused; with distinct ports the bound is exact |
| Registry.NextAvailableIsNearestUnused | internal/boxmgr/manager.go:798-820 | the port chosen is non-zero and, as long as there is one, the nearest unused above the base |
| Registry.PrepareIsSound | internal/boxmgr/manager.go:822-868 | an accepted node has a free name and, in multi-port mode, a non-zero port nobody else has |
| Registry.CreateKeepsSoundIff | internal/boxmgr/manager.go:536-572 | a stored node keeps names and ports unique exactly when it brought a port or one was left |
| Registry.UncheckedCreatePortsIff | internal/boxmgr/manager.go:855-865 | outside multi-port mode a stored node keeps ports from clashing, with each other and in hybrid mode with the listener's, exactly when it has none, or one that is unused and not the listener's |
| Registry.UncheckedUpdatePortsIff | internal/boxmgr/manager.go:575-610 | a replaced node keeps them so exactly when it has no port, or one that no other node has and, in hybrid mode, is not the listener's |
| Registry.UpdateKeepsSound | internal/boxmgr/manager.go:575-610 | replacing a node keeps names and ports unique |
| Registry.DeleteKeepsSound | internal/boxmgr/manager.go:613-640 | deleting a node keeps names and ports unique |
| Registry.RunKeepsSound | internal/boxmgr/manager.go:536-640 | over any run in which each operation brings a port or fewer than 65535 nodes leave one, names stay unique and multi-port ports non-zero and distinct |
| Registry.RunKeepsNames | internal/boxmgr/manager.go:536-640 | over any run at all, in any mode and however full, names stay unique and non-empty |
| Registry.ShortRunsHaveRoom | internal/boxmgr/manager.go:798-820 | a run always has room while nodes and operations together stay below 65536 |
| Registry.DeleteUndoesCreateIff | internal/boxmgr/manager.go:536-640 | deleting a node just created restores the list exactly when the request brought a name or the default name for it is trimmed |
| RegistryTheorems.CreateOutcome | internal/boxmgr/manager.go:536-572 | creation succeeds, or fails with each of its errors, exactly when request, names, ports and save say so; the stored node field by field; all other nodes as they were |
| RegistryTheorems.UpdateOutcome | internal/boxmgr/manager.go:575-610 | the same for an update: one node replaced in its place, keeping its source, all others as they were |
| RegistryTheorems.DeleteOutcome | internal/boxmgr/manager.go:613-640 | the same for a deletion: the named node alone is gone and all others keep their order |
| RegistryTheorems.RunKeepsOthers | internal/boxmgr/manager.go:536-640 | over any run, a node that no operation is aimed at stays in the list unchanged |
| RegistryTheorems.FragmentNames | internal/boxmgr/manager.go:830-846 | a new node without a name is called by what follows the last `#` of its URI, decoded, or by its number |
| BoxManager.BoxManager.FirstUnused | internal/boxmgr/manager.go:806-819 | the bounded search finds the nearest unused port, skipping 0, or falls back to the base |
| BoxManager.BoxManager.NextAvailablePort | internal/boxmgr/manager.go:798-820 | the loop computes the function the registry lemmas are about |
| BoxManager.BoxManager.PortInUse | internal/boxmgr/manager.go:783-796 | whether another node, by name, is on the port |
| BoxManager.BoxManager.PrepareNode | internal/boxmgr/manager.go:822-868 | validation and defaults, with the errors in the order the code raises them |
| BoxManager.BoxManager.CreateNode | internal/boxmgr/manager.go:536-572 | result and node list as the registry function says; any failure leaves the list as it was |
| BoxManager.BoxManager.UpdateNode | internal/boxmgr/manager.go:575-610 | the same for an update, undone in place when saving fails |
| BoxManager.BoxManager.DeleteNode | internal/boxmgr/manager.go:613-640 | the same for a deletion, undone from the clone despite the in-place shift |
| BoxManager.RepairIsLocal | internal/boxmgr/manager.go:721-753 | a repair moves only the first node on the conflicting port, to the cyclically nearest bindable port that no node and, in hybrid mode, not the listener has |
| BoxManager.RepairKeepsDistinct | internal/boxmgr/manager.go:721-753 | distinct ports stay distinct, the conflict disappears and the listener's port stays avoided |
| BoxManager.RepairHandsOutZeroIff | internal/boxmgr/manager.go:721-753 | a repair puts a node on port 0 exactly when nobody is there and no unused bindable port lies above the conflicting one |
| BoxManager.RepairSavesOne | internal/boxmgr/manager.go:721-753 | a repair of a port that clashes leaves exactly one move less, whether the port is held or shared |
| BoxManager.ReassignConflictingPort | internal/boxmgr/manager.go:721-753 | the loop computes the repair, or changes nothing when no node is on the port |
| BoxManager.AttemptsKeepPortsSound | internal/boxmgr/manager.go:207-231 | a whole series of attempts changes ports only and never creates a conflict |
| BoxManager.AttemptsTrace | internal/boxmgr/manager.go:207-231 | in any world: each attempt but the last built its box, failed to start it on a port of a node and was followed by a repair of that port, and the last one says how the attempts end |
| BoxManager.ExhaustedIff | internal/boxmgr/manager.go:207-231 | for any nodes and any held ports: the attempts run out, leaving a closed box in hand, exactly when there are at least ten moves to make (positions whose port clashes from there on); otherwise a box comes up |
| BoxManager.MovesOfSound | internal/boxmgr/manager.go:721-753 | while the nodes have ports of their own, the moves are the listening nodes on held ports |
| BoxManager.MovesOfSharing | internal/boxmgr/manager.go:721-753 | while nothing is held and every node listens on a real port, the moves are the nodes beyond one for each port |
| BoxManager.BlockedAttempts | internal/boxmgr/manager.go:207-231 | the same from any attempt on: exhausted exactly when as many moves are to make as attempts are left, else up with none left |
| BoxManager.SparePortsSuffice | internal/boxmgr/manager.go:721-753 | every port search of a reload ends if at every attempt the bindable ports outnumber the nodes by two |
| BoxManager.BoxManager.StartWithRetries | internal/boxmgr/manager.go:207-231 | the retry loop ends as the attempt function says, and every box but the last is closed |
| BoxManager.BoxManager.Start | internal/boxmgr/manager.go:88-167 | success, failure, already running and no valid nodes, with the current box each leaves |
| BoxManager.BoxManager.Reload | internal/boxmgr/manager.go:171-257 | at most one unclosed box; on success the shared configuration object holds the new contents with a known file path kept; on failure it is untouched and the current box runs the old configuration or is nil |
| BoxManager.BoxManager.Rollback | internal/boxmgr/manager.go:260-279 | a box of the old configuration runs, or none does |
| BoxManager.BoxManager.Close | internal/boxmgr/manager.go:282-302 | every box is closed |
| BoxManager.BoxManager.ReloadWithPortMap | internal/boxmgr/manager.go:662-675 | normalises, then reloads what normalisation produced; a failed normalisation names its reason and leaves the running box alone, any later error rolls back, and every error leaves the shared configuration alone |
| BoxManager.BoxManager.TriggerReload | internal/boxmgr/manager.go:643-659 | in every mode and world: the outcome of reloading the current nodes with their own port map, normalisation failures included, with the box and the contents it leaves; with one port per URI and no bind conflict, every node keeps its port |
| BoxManager.StableNodesKeepPorts | internal/boxmgr/manager.go:643-675 | settled nodes with one port per URI survive the round trip through their own port map |
| SubscriptionRefresh.CreateNewConfig | internal/subscription/manager.go:629-685 | edits the fetched slice in place and keeps the base settings |
| SubscriptionRefresh.FetchedFields | internal/subscription/manager.go:634-683 | name, source and credentials of every fetched node |
| SubscriptionRefresh.RefreshedPorts | internal/subscription/manager.go:634-645 | after a multi-port refresh each node is, with an empty port map, on base + index modulo 65536; otherwise on its mapped port or that one, and on a fresh free port where that is 0 |
| SubscriptionRefresh.RefreshKeepsPorts | internal/subscription/manager.go:419-426 | across a refresh in multi-port or hybrid mode a known URI keeps its port, as long as its nodes that have one agree on it |
| SubscriptionRefresh.PortMapEmptyIff | internal/config/config.go:509-517 | the port map is empty exactly when no node has a port |
| SubscriptionRefresh.HybridRefreshSafeIff | internal/subscription/manager.go:419-426 | from any current nodes, a hybrid refresh of bare nodes leaves each on a port of its own, neither 0 nor the listener's, exactly when nothing is fetched, or some node had a port before, the mapped ports do not repeat and avoid the listener's, and enough free ports lie at or above the base |
| SubscriptionRefresh.HybridRefreshWithRoomIff | internal/subscription/manager.go:419-426 | with that room, different URIs and current ports that do not clash, exactly when some node had a port before or nothing is fetched |
| SubscriptionRefresh.RefreshesStayOnZero | internal/subscription/manager.go:419-426 | over any number of hybrid refreshes of bare nodes: where no node had a port, none ever gets one |
| SubscriptionRefresh.CurrentMapIsGood | internal/boxmgr/manager.go:678-685 | the port map of nodes whose ports do not clash is usable for any fetched nodes with different URIs |
| SubscriptionRefresh.RefreshDistinctIff | internal/subscription/manager.go:634-645 | a multi-port refresh leaves ports distinct exactly when, with an empty port map, at most 65536 nodes are fetched, and otherwise mapped ports and counter values do not repeat, 0 aside, and any of them that counts as free lies beyond the fresh ones |
| SubscriptionRefresh.RefreshOnZeroIff | internal/subscription/manager.go:634-645 | it leaves a node on port 0 exactly when, with an empty port map, the counter passes 65535, and otherwise too few free ports lie at or above the base for the nodes on 0 |
| SubscriptionRefresh.NoWrapDistinctIff | internal/subscription/manager.go:634-645 | while the counter does not wrap, that is when the map repeats no port and no unmapped position's counter is a mapped port |
| SubscriptionRefresh.ReorderedRefreshCollides | internal/subscription/manager.go:634-645 | adding one node behind a known one on the second port puts both on that port |
| RefreshProtocol.RequestsAreServed | internal/subscription/manager.go:116-147 | in every run each request has a later refresh that read settings at least as new, or its token is pending or just taken |
| RefreshProtocol.OneRefreshAtATime | internal/subscription/manager.go:335-357 | refreshes never overlap, none is turned away by the lock, and the count is the number finished |
| RefreshProtocol.StepKeepsInv | internal/subscription/manager.go:259-317 | each atomic step of the loop or a caller keeps the invariant |
| RefreshProtocol.CompletedIff | internal/subscription/manager.go:209-246 | a refresh begun after a request has finished exactly when more have finished than had started before it |
| RefreshProtocol.RefreshNowReturn | internal/subscription/manager.go:209-246 | on return some refresh has finished since the baseline read, and one begun after the request has finished unless the only one was already under way |
| RefreshProtocol.IdleOfferIsServed | internal/subscription/manager.go:209-246 | if no refresh is under way at the offer, every return of the call comes after a refresh begun since has finished |
| RefreshProtocol.UnservedReturnIff | internal/subscription/manager.go:209-246 | in every reachable state a call may go on to report success unserved exactly when a refresh is under way as it offers its request |
| RefreshProtocol.BusyOfferReturnsUnserved | internal/subscription/manager.go:335-357 | how: the poll pairs the count of the refresh under way with the outcome the next one has recorded |
| RefreshProtocol.StaleReturnHappens | internal/subscription/manager.go:209-246 | a run in which success is reported while the request still waits |
| NodesFile.ParseNodesFromContent | internal/config/config.go:792-813 | the loop yields exactly the accepted lines, each as a bare node |
| NodesFile.ParsedByLines | internal/config/config.go:792-813 | a text is read line by line: two texts joined by a newline read as the one after the other |
| NodesFile.PaddedLine | internal/config/config.go:797-810 | a line with a URI between white space gives that URI exactly when it does not begin with `#` and is accepted |
| NodesFile.BlankLine | internal/config/config.go:797-810 | a line of white space gives nothing |
| NodesFile.CarriageReturnIsHarmless | internal/config/config.go:797-810 | lines that end in a carriage return and a newline read like others |
| NodesFile.NodesFileText | internal/config/config.go:1241-1251 | the text written for a list of nodes |
| NodesFile.PrintedByLines | internal/config/config.go:1241-1251 | every URI is written followed by a newline, and nothing else is |
| NodesFile.PrintParseRoundTrip | internal/config/config.go:1241-1251 | writing then reading is the identity on exactly the lists of trimmed, newline-free, non-comment lines the reader accepts |
| NodesFile.ParsePrintParse | internal/config/config.go:792-813 | for any text, reading, writing and reading again gives what the first reading gave |
| NodesFile.RereadHashIff | internal/subscription/manager.go:470-478 | reading back a written list hashes the same exactly when every URI in it survives the reading |
| NodesFile.SchemeIgnoresCase | internal/config/config.go:911-917 | schemes are recognised at the beginning, character by character in lower case |
| NodesFile.ReadersDifferIff | internal/subscription/manager.go:687-696 | the two readers differ on exactly the socks proxies and the acceptable http and https ones |
| NodesWatch.NodesWatcher.InitFromFile | internal/subscription/manager.go:151-194 | start-up remembers the hash and time of a file it can read |
| NodesWatch.NodesWatcher.RecordRefresh | internal/subscription/manager.go:404-417 | a refresh remembers the hash of what it wrote and the time of the file |
| NodesWatch.NodesWatcher.CheckNodesModified | internal/subscription/manager.go:482-532 | reports a newer file whose hash differs, and remembers its time |
| NodesWatch.UnchangedTimeIsQuiet | internal/subscription/manager.go:497-502 | a file no newer than recorded is never reported, whatever was checked in between |
| NodesWatch.RewriteReportedIff | internal/subscription/manager.go:482-532 | rewriting the list a refresh wrote is reported exactly when the file is newer and some URI does not survive the reading |
| NodesWatch.AcceptedRewriteReportedIff | internal/subscription/manager.go:687-696 | for URIs the configuration's reader accepts, exactly when some scheme is not in the shorter list |
| NodesWatch.RewriteAfterStartIsQuiet | internal/subscription/manager.go:151-194 | after start-up, rewriting the same text is never reported |
| NodesWatch.EditAfterStartReportedIff | internal/subscription/manager.go:482-532 | after start-up an edit is reported exactly when the file is newer and holds another list of URIs |
| NodesWatch.EditAfterRefreshReportedIff | internal/subscription/manager.go:482-532 | after a refresh, exactly when it is newer and does not hold the URIs written |
| NodesWatch.ReportedOnce | internal/subscription/manager.go:524-531 | a file reported once is not reported again by any later check of it, checks not overlapping |
| NodesWatch.ReportedAgainIff | internal/subscription/manager.go:524-531 | it comes back exactly with a newer time |
| Counterexamples.ThreeNamesTwoTags | internal/builder/builder.go:55-62 | the names `a`, `a`, `a-2` get two tags between them |
| Counterexamples.ReservedName | internal/builder/builder.go:1069-1081 | the name `proxy pool` gets the pool's own tag |
| Counterexamples.ReservedNameCollides | internal/builder/builder.go:118-138 | a tree with two outbounds of one tag |
| Counterexamples.WalkWrapsToZero | internal/config/config.go:622-631 | two nodes above base port 65535, one put on port 0 |
| Counterexamples.NothingBindableNeverReturns | internal/config/config.go:622-631 | one node without a port on an address that cannot be bound: normalisation never returns |
| Counterexamples.SharedUriLosesAPort | internal/config/config.go:509-517 | one URI on two ports does not survive its own port map |
| Counterexamples.FirstRefreshWrapsToZero | internal/boxmgr/manager.go:662-675 | two nodes fetched into an empty multi-port configuration above base port 65535 end on 65535 and 0 |
| Counterexamples.FirstHybridRefreshLeavesZero | internal/subscription/manager.go:419-426 | one node fetched into an empty hybrid configuration stays on port 0 |
| Counterexamples.NextHybridRefreshLeavesZero | internal/subscription/manager.go:419-426 | one more fetched node stays on port 0 after that |
| Counterexamples.HybridCreateCollides | internal/boxmgr/manager.go:855-865 | a hybrid node created on a port in use |
| Counterexamples.HybridUpdateCollides | internal/boxmgr/manager.go:575-610 | a hybrid node moved onto another's port or the listener's |
| Counterexamples.SpacedNameStays | internal/boxmgr/manager.go:613-632 | a node named by its fragment cannot be deleted by that name |
| Counterexamples.TenHeldPortsExhaust | internal/boxmgr/manager.go:207-231 | ten nodes on ten held ports use up every attempt |
| Counterexamples.FrontedRefreshExhausts | internal/boxmgr/manager.go:207-231 | ten new nodes fetched in front of ten known ones use up every attempt with no port held |
| Counterexamples.HeldWorldBlocks | internal/boxmgr/manager.go:693-707 | a world in which ports fail to bind exactly because they are held or wanted twice, whichever nodes listen |
| Counterexamples.LocationFilterIgnored | internal/config/config.go:195-203 | a node that does not pass is enabled |
| Counterexamples.SameListLooksEdited | internal/subscription/manager.go:482-532 | a list with a socks proxy, saved unchanged, is reported, once |

## Left out

- HTTP handlers, authentication, event streams, the web page, logging and the printing of proxy links.
- Fetching subscriptions, location lookup, name resolution, YAML, base64 and Clash conversion.
- sing-box itself, real sockets and the HTTP probe: they succeed or fail as parameters say.
- The translation of a URI into an outbound, and names found in a URI fragment or a VMess body: opaque functions of the URI.
- Defaults that `normalize` fills in besides mode, listener port and base port.
- `gracefulSwitch`, `drainOldBox` and `pickMember`, which nothing calls; `selectMember`, which only `pickMember` calls, is modelled all the same.
- Background health checks: they set the availability of an entry, which the pool model takes as it finds it.
- Lazy initialisation of pool members, missing shared states (the code always creates one), reuse of candidate buffers across dials, and the 32-bit width of the load counters.
- Overlapping reloads, which the code does not serialise, and goroutine fairness: the protocols are proved safe, not live.
- Timeouts in `RefreshNow`, stopping the manager, and what one refresh fetches.
- Hash collisions, and an edit of the nodes file between its writing and the reading of its time.
- Lower-casing outside ASCII where it cannot matter: tags, schemes and filter targets are compared with ASCII only. In the name filter it is a parameter.
- Config.Config.NormalizeWithPortMap: requires enough free ports, because without them the code never returns.
- Config.Config.AssignLoadPorts: requires a bindable port when one is needed, for the same reason.
- Config.Config.FixPoolPortConflicts: requires enough free ports, for the same reason.
- BoxManager.ReassignConflictingPort: requires a free port, for the same reason.
- BoxManager.BoxManager.StartWithRetries: requires that every port search the attempts make ends, for the same reason.
- BoxManager.BoxManager.Start: takes over that requirement.
- BoxManager.BoxManager.Reload: takes over that requirement; does not model monitor settings, the pause for the system to release ports, or a close that fails.
- BoxManager.BoxManager.ReloadWithPortMap: takes over the requirements of normalising and reloading, for the branch that is taken.
- BoxManager.BoxManager.TriggerReload: takes them over too, and requires a configuration; the code dereferences it before checking that there is one.
- NodesWatch.ReportedOnce: checks are taken one at a time; the code reads and writes the remembered time in two critical sections (`internal/subscription/manager.go:483-486`, `:527-529`), so two overlapping checks can both report.
- BoxManager.ExhaustedIff: a failed start names a port that clashes among the nodes; a held listener port, which no repair can move, ends the attempts at once. Ports stand for addresses and ports together.
- Config.Config.AppendNode: the capacity Go chooses when it grows a slice is not modelled.
- Config.Config.BuildPortMap: keys are the URIs as stored; normalisation looks them up trimmed.
- Conservation.EntryIsSumOfShared: the monitor's table is only dropped after the store and before anything registers again, as `Reload` does when reloads do not overlap.
- Pool.PoolOutbound.SortByLoad: insertion sort stands for `sort.Slice`, whose order among equals is unspecified; the theorems hold for any order by load.
- Pool.PoolOutbound.DialContext: requires members of different tags (`Store.Tables.ReadyIff`); two members of one tag share one state, so one dial can fail that node twice. A member's monitor entry is the one its shared state holds, and both counters move in one step; `Conservation` has them apart.
- Pool.PoolOutbound.ListenPacket: requires members of different tags too.
- Store.Tables.Register: the name, address and callbacks an entry carries are not modelled, nor are the resets of the two tables, which `Conservation` has.
- SharedState.SharedMemberState.RecordFailure: one clock reading serves the shared state and the entry.
- Routing.EveryNodeServedIff: ports stand for addresses and ports together, so two inbounds on one port count as a conflict even if their addresses differ.
