# DockRouter, verified

DockRouter is a reverse proxy that discovers containers, keeps a table of routes to
them, balances requests over the replicas of a service, and takes failing replicas in
and out of rotation. This project models its routing engine and the small protocols
around it in Dafny, and proves what they promise.

Each mutex-protected method of the program is one atomic step. Time is a parameter
that does not decrease. Strings are sequences of bytes. Outcomes the program does not
decide (probe results, backend replies, what other requests do meanwhile, the random
source, map iteration order) are parameters or nondeterministic choices, so every
theorem holds for all of them.

Code that updates objects in place is modelled by classes. Their methods are proved
against specification functions on values (`Targets.Step`, `TableModel.Store` and
`Drop`, `Failover.Turn` and `Loop`, `Health.Probe`, `SSE.Next`, `RateLimit.Call`,
`CircuitBreaker.Step`, `Discovery.Absorb`, `Signature.Cut`), and the theorems are about
those functions, over every input, run or interleaving.

## What is proved

**Routes.** `Radix` is the pointer tree of internal/router/radix.go, with splits and
compaction on the heap. Each node owns its subtree and a ghost flat map; every
operation is proved to change that map at exactly one key, and `Match` to be the
longest prefix match in it. `HostTrees` and `RouteTable` put one such tree per host
next to the flat map of routes. `Paths` and `Hosts` say what normalisation makes of any
path and host. `TableModel` proves that a route is found by every request that names its
host, in any casing and with any port, and that `Upsert` keeps map and trees in
agreement exactly when it takes no other route's place in the trees. `TableRuns` proves
agreement, and what `Match` answers, over every run of `Upsert`, `Remove` and
`RemoveByContainer` in which no path prefix ends in a doubled slash, and gives the run
that breaks when one does.

**Pools.** `Targets`, `Selection` and `Backend` model the pool: weighted round-robin is
exactly fair, in the declared weights, over any window of tickets, passive ejection never
empties the rotation, and `RotationEmptiesExactlyWhen` says what does. `Ledger` reads every
field of a target off the calls that were made. `Traffic` proves conservation of the
statistics over all interleavings of requests, container changes and health changes, and
exactly which changes break it.

**Failover.** `Failover` is the retry loop of one request as a function of what the
backends reply and what everybody else does to the pool between its critical sections.
It proves that a request reaches the client from one source, that nothing is attempted
twice or after commit, and when the 503 page is sent. `Replay` proves exactly when each
attempted backend sees the original body. `Rota` and `Completeness` prove exactly when
the loop reaches every backend it may before answering 503: a rotation in which only
some targets are one failure from ejection can end it after two attempts. `Weighted`
does so for weights, where it takes common divisors to say which targets are met twice,
and `Sticky` for the strategies that choose the same target again: by client address or
fewest connections a failure is retried elsewhere only if it ejected the backend.
`Accounts` proves what a request leaves in the statistics. `ProxyHandler` is the handler
itself, over request, writer and pool objects, and is proved to refine
`Failover.Handle`.

**Health and discovery.** `Health` and `Checking` model the probe state machine and its
schedule, `Callbacks` the notifications that run outside the checker's lock, and
`Recovery` how probes, notifications and proxy errors act on one target together.
`Discovery` is the engine that mirrors containers into a sink, and `Sink` the sink, which
keeps the probed addresses equal to the served ones through every call. `Mirror` proves
exactly when the table serves the engine's containers, while backends are marked and
requests recorded: an address may pass from one container to the next, but a container
that is reported at a new address or on a new route while it is still known leaves its
old target behind.

**Middleware and the rest.** `RateLimit` bounds admissions over real time, proves rejected
calls unobservable, and carries both over to runs of the limiter object.
`CircuitBreaker` characterises each state by the history of calls. `SSE` proves channel
safety and event accounting in every interleaving of the hub's loop, `Stop`, `Send` and
the handlers; `SSEHubs` is the object. `Signature` is the conversion of an
Ecdsa-Sig-Value (section 2.2.3 of RFC 3279) to the form section 3.4 of RFC 7518 wants,
on slices that share and overwrite their arrays.

## Where the code does less than its documentation says

- README.md:211 says that a backend returns to rotation after its recovery passes. A
  recovering target that fails again becomes Degraded, which counts as in rotation;
  `ReturnsOnlyAfterRecoveryExactlyWhen` gives the settings for which the promise holds.
- README.md:214-215 says that the last healthy backend is never ejected. That holds of
  recorded failures only (`PassiveRun`); the checker, a removal or a re-registration can
  take it (`RotationEmptiesExactlyWhen`).
- internal/router/backend.go:54-57 says that the health checker or a later successful
  request puts an ejected backend back. No recorded result does, and passing probes do
  not either while the checker holds the backend for healthy: with a threshold above one
  it is half a threshold of failing probes that bring it back
  (`EjectedStaysOutExactlyWhen`).
- internal/health/checker.go:214-221 notifies outside the lock, so two callbacks of one
  target can overtake each other and leave the table at odds with the checker
  (`AnyOrderAgreesExactlyWhen`, `OvertakingDisagrees`).
- internal/router/failover.go:54-62 says that the writer records whether any part of the
  response has reached the client. A flush does not count
  (`OneVisibleSourceExactlyWhen`). This is about the writer: the proxy in internal/proxy
  calls no flush of its own and promises to leave the writer untouched on a failed
  attempt (internal/proxy/proxy.go:91-96), so it does not trigger it.
- internal/router/router.go:124-125 leaves the body unbuffered when a single backend is
  healthy, having nothing to fail over to. A backend restored meanwhile gets the rest of
  the body (`NewcomerSeesRest`).
- internal/admin/sse.go:84-86 says that Stop closes all client channels. It closes those
  listed when it sweeps; a registration listed later stays open until it is undone
  (`OpenAfterStop`, `StopClosesAllExactlyWhen`, `StopCanLeak`).
- Sync uses published ports for the address and does not validate the configuration; a
  start event validates and has no ports (`PathsAgreeExactlyWhen`).

## Model

| member | source | states |
|---|---|---|
| `Paths.NormalizePath` | internal/router/radix.go:236-246 | A normalised path starts with a slash. |
| `Paths.EmptyIsRoot` | internal/router/radix.go:236-246 | No path is the root path. |
| `Paths.SlashAdded` | internal/router/radix.go:236-246 | A missing leading slash makes no difference. |
| `Paths.SlashDropped` | internal/router/radix.go:236-246 | One trailing slash is dropped. |
| `Paths.FixedExactlyWhen` | internal/router/radix.go:236-246 | A rooted path is left as it is exactly when it is the root or does not end in a slash. |
| `Paths.CoversNormalized` | internal/router/radix.go:236-246 | A request path that a prefix covers as written is covered after both are normalised. |
| `Paths.LongestMatchIsLongest` | internal/router/radix.go:109-121 | The flat specification of lookup: an answer exists iff some key is a prefix of the path, and it is the value at the longest such key. |
| `Paths.LongestKeyDecides` | internal/router/radix.go:109-121 | The longest prefix key determines the answer, so the specification has exactly one. |
| `Radix.CommonPrefix` | internal/router/radix.go:248-260 | A common prefix that cannot be extended by one byte. |
| `Radix.ReplaceEdge` | internal/router/radix.go:56-71 | Replacing one edge by an edge with the same first byte changes the flat map at one key only. |
| `Radix.AddEdge` | internal/router/radix.go:100-105 | A new edge whose first byte is new adds exactly one key. |
| `Radix.SplitThenPut` | internal/router/radix.go:73-95 | Splitting an edge and storing below the split keeps every other key reachable. |
| `Radix.MergeReach` | internal/router/radix.go:182-190 | Merging a routeless node with its only child keeps every key reachable. |
| `Radix.DropEdge` | internal/router/radix.go:170-173 | Dropping a childless node removes its key and no other. |
| `Radix.NotBelow` | internal/router/radix.go:164-165 | A key that no edge leads to is not in the tree, so deleting it is no change. |
| `Radix.WithoutContainerRepresents` | internal/router/radix.go:204-213 | Clearing the routes of one container node by node is filtering the flat map. |
| `Radix.LongestThroughEdge` | internal/router/radix.go:133-144 | The longest match below the one edge that fits, or else the node's own route, is the longest match of the whole. |
| `Radix.LongestWithoutEdge` | internal/router/radix.go:133-144 | Where no edge fits, the longest match is the node's own route. |
| `Radix.RootedMatch` | internal/router/radix.go:114-120 | Keeping the route of "/" at the root node answers lookups as a flat map does. |
| `Radix.RadixNode.Insert` | internal/router/radix.go:54-106 | In place: the flat map below the node gains exactly the inserted key; the node stays well formed, with disjoint subtrees and siblings that differ in their first byte. |
| `Radix.RadixNode.AddChild` | internal/router/radix.go:100-105 | The branch for a key that shares no byte with any child. |
| `Radix.RadixNode.InsertBelow` | internal/router/radix.go:60-71 | The branch for a key that continues in, or equals, a child. |
| `Radix.RadixNode.Split` | internal/router/radix.go:73-96 | The branch that splits a child at the common prefix. |
| `Radix.RadixNode.Match` | internal/router/radix.go:123-145 | The depth-first search that carries the last match returns the longest match, or the one it was given. |
| `Radix.RadixNode.Delete` | internal/router/radix.go:163-195 | In place: exactly the deleted key goes; the result says whether a direct child was removed. |
| `Radix.RadixNode.DeleteBelow` | internal/router/radix.go:166-191 | Deleting within one child, compaction included, removes that key and no other. |
| `Radix.RadixNode.DropLeaf` | internal/router/radix.go:170-173 | Removing a childless child keeps the others in order. |
| `Radix.RadixNode.ClearChild` | internal/router/radix.go:175-178 | Clearing the route of a child with children removes its key only. |
| `Radix.RadixNode.Compact` | internal/router/radix.go:183-189 | A node that takes over its only child answers every lookup as before. |
| `Radix.RadixNode.RemoveByContainerID` | internal/router/radix.go:204-213 | Removes the keys of exactly the routes of one container. |
| `Radix.RadixTree.Insert` | internal/router/radix.go:38-52 | The tree refines a flat map keyed by normalised path: one key is set; with or without the leading slash it is the same, and no path stands for the root. |
| `Radix.RadixTree.Match` | internal/router/radix.go:109-121 | Lookup is the longest prefix match in that map; a route at the root answers every request that no longer one does. |
| `Radix.RootServesAll` | internal/router/radix.go:109-145 | A route without a path is a candidate for every request. |
| `Radix.RadixTree.Delete` | internal/router/radix.go:148-161 | One key is removed. |
| `Radix.RadixTree.RemoveByContainerID` | internal/router/radix.go:198-202 | The routes of one container are removed, and all others stay as they were. |
| `Radix.RadixTree.IsEmpty` | internal/router/radix.go:24-28 | A tree that reports empty holds no route. |
| `Hosts.WildcardMeaning` | internal/router/table.go:326-344 | "*.d" matches the bare domain d and what ends in a dot and d, nothing else. |
| `Hosts.OnlyDotted` | internal/router/table.go:326-344 | A pattern that does not start with "*." matches nothing. |
| `Hosts.PlainHost` | internal/router/table.go:317-323 | A host without colon and outer spaces keeps its length; its capitals are lowered and nothing else changes. |
| `Hosts.PortDropped` | internal/router/table.go:317-323 | A port makes no difference. |
| `Hosts.SpacesDropped` | internal/router/table.go:317-323 | Outer spaces make no difference. |
| `Hosts.Trimmed` | internal/router/table.go:322 | Trimming takes the outer spaces and nothing else. |
| `Hosts.LowerExactlyWhen` | internal/router/table.go:322 | Lower case identifies exactly the strings that differ in ASCII case only. |
| `Hosts.NamesNormalized` | internal/router/router.go:75-85 | Whatever casing and port a Host header has, the router and the table make of it what the table made of the configured host. |
| `Hosts.CleanExactlyWhen` | internal/router/radix.go:236-246 | Normalising twice is normalising once exactly when the path does not end in a doubled slash (beyond the root). |
| `Hosts.SlotDeterminesKey` | internal/router/table.go:50-56 | For such paths the place in the trees determines the route key ... |
| `Hosts.KeyDeterminesSlot` | internal/router/table.go:50-56 | ... and equal keys mean equal places exactly when the hosts are equally long, so always when neither holds the separator. |
| `Hosts.SeparatorInHost` | internal/router/table.go:50-56 | With the separator in a host two places share a key. |
| `TableModel.StoreKeepsAgreeExactlyWhen` | internal/router/table.go:64-90 | Storing a route keeps the flat map and the trees in agreement exactly when it takes no other route's place in the trees. |
| `TableModel.DropKeepsAgree` | internal/router/table.go:133-141 | Removing a route always does. |
| `TableModel.LongestOfHost` | internal/router/table.go:184-188 | A host's tree answers with the longest-prefix route the flat map has for that host, and with none iff there is none. |
| `TableModel.AnswerIsMatch` | internal/router/table.go:175-200 | On agreeing tables what the trees answer is the exact host's longest-prefix route if the host has any candidate, else that of some matching pattern, and nil iff no pattern has a candidate. |
| `TableModel.RouteFound` | internal/router/table.go:175-200 | A route is found by every request that names its host, in any casing and with or without a port, under a path its prefix covers: the answer is of the same host with a prefix no shorter. |
| `TableModel.NamedAlike` | internal/router/table.go:175-200 | Requests that differ only in the casing or the port of the host get the same answers. |
| `TableModel.MarkReaches` | internal/router/table.go:95-109 | A mark sets the health of its address in every pool and touches nothing else. |
| `TableRuns.DrainedStops` | internal/router/table.go:147-165 | What the table promises of RemoveByContainer determines the new table. |
| `TableRuns.StopKeepsAgree` | internal/router/table.go:147-165 | Stopping a container keeps flat map and trees in agreement. |
| `TableRuns.RunKeepsAgree` | internal/router/table.go:64-165 | Over any run of Upsert, Remove and RemoveByContainer with clean path prefixes the trees hold exactly the routes of the flat map, and every route has its pool. |
| `TableRuns.RunMatches` | internal/router/table.go:175-200 | After any such run Match answers as the flat map says. |
| `TableRuns.DoubledSlashLosesRoute` | internal/router/table.go:265-314 | Without the condition it fails: a three-step run after which a route is in the flat map and in no tree. |
| `TableModel.StoppingRemovesExactly` | internal/router/table.go:147-165 | With at most one target per pool, stopping a container takes away its targets and no others, keeps the rest with statistics and order, and drops a route iff its pool is left empty. |
| `HostTrees.Forest.Insert` | internal/router/table.go:272-287 | One of the two host maps: the tree is created if missing, and one route is set among all trees together. |
| `HostTrees.Forest.Delete` | internal/router/table.go:299-313 | One route is dropped among all trees together, and a tree that reports empty is discarded without losing a route. |
| `HostTrees.Forest.Match` | internal/router/table.go:184-188 | The longest match among one host's routes. |
| `RouteTable.Table.AddToTree` | internal/router/table.go:265-288 | The two host maps together gain exactly the route. |
| `RouteTable.Table.RemoveFromTrees` | internal/router/table.go:291-314 | The two host maps together lose exactly the route. |
| `RouteTable.Table.Match` | internal/router/table.go:175-200 | The longest match in the exact host's tree, else in the tree of some matching pattern, else nil; on agreeing tables that is what the flat map says. Every stored route that the request asks for, by any casing or port of its host, is found or a longer one of the host is. |
| `RouteTable.Table.MatchWildcard` | internal/router/table.go:190-199 | The wildcard half, for any iteration order of the map. |
| `RouteTable.Table.Upsert` | internal/router/table.go:64-90 | One Upsert step of a run: the route is stored under its key with the live pool if there is one; that pool, with its health and statistics, gains the target; no other pool changes. |
| `RouteTable.Table.Replace` | internal/router/table.go:64-90 | The same, as what happens to routes, trees and pools (RouteTable.Stored). |
| `RouteTable.Table.Install` | internal/router/table.go:84-89 | The second half: target, flat map and tree. |
| `RouteTable.Table.PoolFor` | internal/router/table.go:72-82 | The first half: the live pool is kept and takes the new strategy, and its old route leaves the trees. |
| `RouteTable.Table.Remove` | internal/router/table.go:133-141 | One Remove step of a run: the key leaves the flat map and the trees; no other pool changes. |
| `RouteTable.Table.RemoveByContainer` | internal/router/table.go:147-165 | One RemoveByContainer step of a run, for any iteration order: every pool loses the container's first target, and exactly the routes with drained pools go, from the flat map and from the trees. |
| `RouteTable.Table.SetBackendHealth` | internal/router/table.go:95-109 | The target at an address is marked in every pool, and nothing else changes. |
| `RouteTable.Table.BackendAddresses` | internal/router/table.go:112-130 | The set of served addresses, each listed once. |
| `Targets.RotationEmptiesExactlyWhen` | internal/router/backend.go:83-138 | One call empties the rotation exactly when it removes, marks unhealthy or re-adds as unhealthy the last healthy target; a recorded failure never does. |
| `Targets.PassiveRun` | internal/router/backend.go:311-355 | Over any run of recorded requests from fresh counters: the rotation never empties, nothing returns to it, consecFail is the number of failures since the last success, and a healthy target with three is the only one. |
| `Targets.EjectionNeedsThreeFailures` | internal/router/backend.go:327-344 | A target is ejected exactly by a failure of its own that is at least the third since its last success, while another is healthy. |
| `Targets.RemoveDropsContainer` | internal/router/backend.go:128-138 | Remove leaves no target of the container and all others in order exactly when the container had at most one. |
| `Targets.RunKeepsDistinct` | internal/router/backend.go:83-99 | Addresses stay distinct over any run of pool calls. |
| `Ledger.TargetHistory` | internal/router/backend.go:83-355 | After any calls but removals: requests, connections and failures count the calls; failures in a row are those since the last success or healthy mark; container and weight are those of the last registration; the target is in rotation exactly if the last mark or registration put it there and it has not since failed a third time in a row while several were healthy. |
| `Ledger.EjectedNext` | internal/router/backend.go:327-355 | When a target counts as ejected, call by call. |
| `Ledger.ReadmittedOnProbation` | internal/router/backend.go:83-99 | A target that is registered again is in rotation with its failures still counted: after two of them the next ejects it. |
| `Selection.ShareInterval` | internal/router/backend.go:236-247 | The weighted shares lie end to end. |
| `Selection.DeclaredShares` | internal/router/backend.go:217-251 | As many consecutive tickets as the declared weights sum up to, wherever they start, pick each target exactly its declared weight of times; a weight that is not positive counts as one. |
| `Selection.Proportional` | internal/router/backend.go:217-251 | So over a cycle targets with positive weights are picked in proportion to them. |
| `Selection.CycleLength` | internal/router/backend.go:224-231 | The cycle is as long as the declared weights sum up to. |
| `Selection.Fair` | internal/router/backend.go:217-251 | Any n tickets pick a target between floor(n/W) and ceil(n/W) times its declared weight, W being the sum of the declared weights. |
| `Selection.EqualWeights` | internal/router/backend.go:174-177 | Plain round-robin is the case of equal weights. |
| `Selection.EachInTurn` | internal/router/backend.go:174-183 | By round-robin, or without a client address, any n tickets in a row choose each of n targets; a random draw can choose any and takes no ticket. |
| `Selection.HashOfParts` | internal/router/backend.go:190-196 | The hash is the polynomial in 31 of the address, modulo 2^64. |
| `Selection.LastCharacterCounts` | internal/router/backend.go:190-196 | Addresses that differ in the last character hash differently. |
| `Selection.SomebodysChoice` | internal/router/backend.go:185-197 | By client address each of up to 128 targets is the choice of some client, whatever the ticket. |
| `Selection.FewestConnections` | internal/router/backend.go:199-212 | By fewest connections somebody is chosen exactly when some count is below 2^63 - 1, and nobody has fewer. |
| `Backend.BackendPool.Add` | internal/router/backend.go:83-99 | A known address is updated in place; a new one comes last. |
| `Backend.BackendPool.Remove` | internal/router/backend.go:128-138 | The container's first target goes. |
| `Backend.BackendPool.MarkHealthy` | internal/router/backend.go:254-266 | The target at the address is in rotation with a clean failure count. |
| `Backend.BackendPool.MarkUnhealthy` | internal/router/backend.go:269-280 | The target at the address is out of rotation. |
| `Backend.BackendPool.RecordRequest` | internal/router/backend.go:283-294 | One more request and connection at the address. |
| `Backend.BackendPool.CompleteRequest` | internal/router/backend.go:297-307 | One connection fewer. |
| `Backend.BackendPool.RecordSuccess` | internal/router/backend.go:311-321 | The failure count at the address is cleared. |
| `Backend.BackendPool.RecordFailure` | internal/router/backend.go:327-344 | One more failure; ejection at the third in a row unless no other target is healthy. |
| `Backend.BackendPool.HealthyCount` | internal/router/backend.go:347-362 | The number of targets in rotation. |
| `Backend.BackendPool.HealthyTargets` | internal/router/backend.go:145-151 | The rotation, in pool order. |
| `Backend.BackendPool.Select` | internal/router/backend.go:141-171 | The choice every strategy promises, from the rotation only; a ticket is taken exactly by the strategies that count; nil iff nothing can be chosen. |
| `Backend.BackendPool.SelectIPHash` | internal/router/backend.go:185-197 | The same address gets the same place while the rotation stands. |
| `Backend.BackendPool.SelectLeastConn` | internal/router/backend.go:200-213 | The first of the targets with the fewest connections; nil iff every count is at the 64-bit maximum. |
| `Backend.BackendPool.SelectWeightedRoundRobin` | internal/router/backend.go:217-251 | The target whose share holds the ticket; the fallback branch is never reached. |
| `Traffic.Conserved` | internal/router/backend.go:283-344 | In every interleaving of requests, container stops at any time, joins of quiet addresses and health changes, the books of every target balance. |
| `Traffic.RemovalKeeps` | internal/router/backend.go:128-138 | Removing a container keeps the books balanced, whatever attempts are under way. |
| `Traffic.AdditionKeepsExactlyWhen` | internal/router/backend.go:83-99 | Adding a target with empty books keeps them balanced exactly when its address is served already, or no attempt at it is in flight or unrecorded. |
| `Traffic.StatisticsAddUp` | internal/router/router.go:156-176 | activeConns equals the attempts in flight, and at quiescence requests = successes + failures since the address joined. |
| `Traffic.ReturnInFlightMiscounts` | internal/router/backend.go:83-138 | A container that leaves its siblings and returns to its address during an attempt ends with a count of -1. |
| `Failover.ChoiceUnique` | internal/router/backend.go:141-171 | Strategy, rotation, ticket, client and random draw determine the choice. |
| `Failover.OneRequest` | internal/router/router.go:131-212 | Whatever backends, client and other requests do: distinct addresses, at most maxRetries attempts, all but the last failed uncommitted; the client gets what the attempts sent, then the 503 page, once, iff every attempt failed uncommitted. |
| `Failover.OneSource` | internal/router/failover.go:65-102 | Everything that commits the response comes from one source. |
| `Failover.ClientSees` | internal/router/router.go:208-241 | The client sees the status and bytes of the last attempt, or status 503 and the page if every attempt failed with nothing committed; where no attempt succeeded it sees some response. |
| `Failover.CommitsSeen` | internal/router/failover.go:69-102 | What marks the writer committed is exactly what lets the client see a response. |
| `Failover.OneVisibleSourceExactlyWhen` | internal/router/failover.go:82-87 | In all runs everything that reaches the client, flushes included, comes from one source exactly when no backend's reply flushes and then fails uncommitted. |
| `Failover.NoStrayFlushOneSource` | internal/router/failover.go:82-87 | The same in one direction, for replies that may vary from attempt to attempt. |
| `Failover.StrayFlushSeen` | internal/router/failover.go:82-87 | For every such reply, the run in which the client sees the flush of a backend and then the page. |
| `Failover.OneVisibleSourceRunExactlyWhen` | internal/router/failover.go:82-87 | In one run whose successes send something: exactly when no failed attempt had flushed. |
| `Failover.AttemptsBounded` | internal/router/router.go:131-143 | Unless someone adds a target meanwhile, only addresses of the pool are tried, and at most as many as it has targets. |
| `Replay.Buffering` | internal/router/failover.go:24-52 | Buffering keeps an intact body; the request can be sent again iff the body fits the limit or brought its own copy. |
| `Replay.BufferedReplay` | internal/router/failover.go:24-52 | Then every attempted backend sees the original body; a body over the limit goes, whole, to one backend at most. |
| `Replay.Oversized` | internal/router/failover.go:38-44 | A body over the limit is left as it was, broken or not, and is not sent again. |
| `Replay.RewindFailsOnce` | internal/router/router.go:146-154 | A body that cannot be had again is sent to one backend. |
| `Replay.Bodiless` | internal/router/router.go:146-154 | A request without a body is retried without one. |
| `Replay.LosslessExactlyWhen` | internal/router/router.go:126-154 | Over all runs in which nobody adds to a drained pool, as the table sees to: every backend sees the whole body, whatever backends and others do, exactly when the request brings its own copy, or one attempt is allowed, or two backends are healthy at entry, or the pool is empty. |
| `Replay.ReplacedSeesRest` | internal/router/router.go:126-154 | For every other pool and nonempty body such a run, in which a new container replaces the others and the second backend is sent what the first left. |
| `Replay.EmptyNoAttempt` | internal/router/table.go:75-80 | A pool that is empty at entry stays so, and no attempt is made. |
| `Replay.LosslessRunExactlyWhen` | internal/router/router.go:126-154 | In one run: exactly when that holds or no failed attempt had read from the body. |
| `Replay.Lossless` | internal/router/router.go:126-154 | Every attempted backend sees the original body if no target enters rotation during the request. |
| `Replay.OneHealthyOneAttempt` | internal/router/router.go:134-143 | One healthy backend at entry and no newcomer: one attempt. |
| `Replay.BrokenBody` | internal/router/failover.go:32-35 | A body whose read fails within the limit is lost: one attempt at most, and it sees none of what was read. |
| `Replay.NewcomerSeesRest` | internal/router/router.go:126-131 | It takes no container change: a run in which a restored backend is sent the rest of the body. |
| `Rota.CompleteExactlyWhen` | internal/router/router.go:134-212 | With all attempts failing, the tickets reach min(maxRetries, n) distinct backends from every start exactly when that is at most two, or no target in rotation is one failure from ejection, or all are. |
| `Rota.UnevenTicket` | internal/router/router.go:134-212 | Otherwise some ticket below n(n-1) ends the request after two attempts. |
| `Rota.FailedAttemptTarget` | internal/router/router.go:156-176 | A failed attempt changes one target: one more request and failure, connections as before, ejected iff it was one failure from ejection and not alone. |
| `Rota.FailedAttemptRotation` | internal/router/backend.go:327-344 | What that does to the rotation. |
| `Completeness.HandleTries` | internal/router/router.go:131-212 | The loop that answers 503 for a replayable request, undisturbed, has tried exactly the addresses the rotation and the ticket determine. |
| `Completeness.AnswersUnavailableOnlyWhen` | internal/router/router.go:131-212 | Under that condition the loop answers 503 only after min(maxRetries, n) distinct backends failed uncommitted; with maxRetries >= n, only if all n did. |
| `Completeness.FailoverCompleteExactlyWhen` | internal/router/router.go:131-212 | With all backends down the loop is complete from every unwrapped ticket iff that condition holds. |
| `Completeness.HashFailsOverExactlyWhen` | internal/router/router.go:131-212 | With selection by client address and all backends down, a second backend is tried exactly when the first failure ejected the first, that is, when it was one failure from ejection and not alone. |
| `Sticky.TriesChain` | internal/router/router.go:131-212 | With selection by client address or fewest connections and all backends down, the loop tries one choice after another as long as each failure ejects its target, and no more. |
| `Sticky.AfterChoice` | internal/router/backend.go:185-213 | An undisturbed failed attempt leaves the same choice, or a rotation without it. |
| `Sticky.WornChain` | internal/router/router.go:131-212 | If every target is one failure from ejection that is min(maxRetries, n) backends. |
| `Sticky.SecondLinkExactlyWhen` | internal/router/router.go:131-212 | A second backend is tried exactly when the first failure ejects the first. |
| `Sticky.WeightedFailsOverExactlyWhen` | internal/router/router.go:131-212 | By weights, a second backend is tried exactly when the first failure ejects the first or the ticket was the last of its share. |
| `Weighted.WeightedHandleTries` | internal/router/router.go:131-212 | By weights and with all backends down, the loop tries exactly the addresses the shares and the ticket determine. |
| `Weighted.WeightedCompleteExactlyWhen` | internal/router/router.go:131-212 | By weights, min(maxRetries, n) backends are reached from every unwrapped ticket only if, with more than one in question, all targets not one failure from ejection have unit weight and, with more than two in question, none of them is followed by a worn target whose weight and that of the others have no common divisor above two. For up to three attempts (the default) or backends, and where all targets or none are one failure from ejection, exactly then. |
| `Weighted.SettledNotEnough` | internal/router/router.go:134-150 | For four attempts it is not enough: a rotation of four and a ticket that meets the first target again after three. |
| `Weighted.HeavyOnce` | internal/router/router.go:134-150 | A target that stays and has a larger share: some ticket meets it twice in a row, and one backend is tried. |
| `Weighted.MeetsTwice` | internal/router/router.go:134-150 | Such a pair: some ticket below the square of the total weight meets the first, the second and the first again, and two backends are tried. |
| `Weighted.ThreeTried` | internal/router/router.go:134-150 | Without such a pair three backends are tried from every ticket. |
| `Weighted.Comeback` | internal/router/backend.go:214-241 | When the ticket after the two falls on the first again, as a congruence of the weights. |
| `Weighted.TiredTries` | internal/router/router.go:134-150 | With every target one failure from ejection all that may be tried are. |
| `Accounts.AttemptAt` | internal/router/router.go:156-176 | An attempt changes one target: one more request, one more failure iff it failed, connections as before. |
| `Accounts.RequestBooked` | internal/router/router.go:131-212 | For every strategy and all replies, an undisturbed request leaves each target with one more request per attempt at it, one more failure per failed attempt, and its connection count as before. |
| `ProxyHandler.Request.ReadUpTo` | internal/router/failover.go:32-35 | Reads at most the limit and leaves the rest in the stream; a read error shows only within the limit. |
| `ProxyHandler.Request.MakeReplayable` | internal/router/failover.go:24-52 | The request object and the verdict are those of the specification. |
| `ProxyHandler.FailoverWriter.Receive` | internal/router/failover.go:65-102 | Everything is passed through in order, and the writer is committed iff it was or one of the calls commits. |
| `ProxyHandler.FailoverWriter.Hijack` | internal/router/failover.go:92-102 | Commits iff the connection was handed over. |
| `ProxyHandler.FailoverWriter.Unavailable` | internal/router/router.go:230-241 | The 503 page is two writes, and commits. |
| `ProxyHandler.Others` | internal/router/backend.go:83-344 | What other requests and the control plane do to the pool between two critical sections, as pool calls. |
| `ProxyHandler.Choose` | internal/router/router.go:135-138 | Select hands out the determined choice. |
| `ProxyHandler.Rewound` | internal/router/router.go:145-154 | The request of attempt i: the original, a clone with a fresh body, or none if rewinding fails. |
| `ProxyHandler.Exchange` | internal/router/router.go:156-176 | One attempt with its book-keeping, interleaved with anything others do. |
| `ProxyHandler.TakeTurn` | internal/router/router.go:134-199 | The loop body refines one turn of the specification, on pool, request, writer and tried set. |
| `ProxyHandler.Handle` | internal/router/router.go:121-213 | The whole handler refines the specification, so the theorems above hold of the objects it updates. |
| `Health.DecidedByHistory` | internal/health/checker.go:178-212 | The counters are the trailing runs, and a target is Unhealthy iff its last threshold probes all failed, three where no positive threshold is declared. |
| `Health.FailuresEject` | internal/health/checker.go:197-212 | From every state threshold failures lead to Unhealthy. |
| `Health.PassesRestore` | internal/health/checker.go:181-196 | From every state max(2, recovery) passes lead to Healthy. |
| `Health.RecoveryExactly` | internal/health/checker.go:188-193 | After Unhealthy exactly max(1, recovery) passes in a row restore it. |
| `Health.FailsExactly` | internal/health/checker.go:197-212 | The state after any run of failures: Unhealthy from the declared threshold on (three if none is declared), Degraded from half of it, else as before. |
| `Health.PassesExactly` | internal/health/checker.go:181-196 | The state after any run of passes: an unknown target is healthy at once, a degraded one after two, an unhealthy one after its recovery passes. |
| `Health.ReturnsOnlyAfterRecoveryExactlyWhen` | internal/health/checker.go:207-211 | A target returns to rotation only after recovery passes exactly when threshold is one or recovery at most one. |
| `Health.EarlyReturn` | internal/health/checker.go:207-211 | The history by which it returns early: one pass, then threshold/2 failures. |
| `Health.SilentExactlyWhen` | internal/health/checker.go:214-221 | A healthy target's checker says nothing exactly while no run of failures, those counted before included, reaches max(1, threshold/2), so a passively ejected backend is not restored meanwhile. |
| `Health.HealthyIsQuiet` | internal/health/checker.go:178-212 | Under settings that stay, a healthy target has counted fewer failures than that. |
| `Recovery.EjectedStaysOutExactlyWhen` | internal/health/checker.go:178-221 | A target ejected by proxy errors while its checker holds it for healthy stays out, over any interleaving of recorded results, probes and callbacks, if its probes never fail max(1, threshold/2) times in a row, failures counted before included (threshold at least two), or never fail once and then pass max(1, recovery) times in a row (threshold one); once no callback is waiting, only if so. |
| `Recovery.OutExactlyWhen` | internal/router/backend.go:311-344 | No recorded result returns it: it is out exactly as long as no callback that has run reported a state in rotation. |
| `Recovery.IssuedByProbes` | internal/health/checker.go:178-221 | The callbacks handed out are those of the probes alone, and none reports a state in rotation iff no change of state was into one. |
| `Health.ProbesSpaced` | internal/health/checker.go:133-156 | Probes are at least an interval apart, and no tick an interval after the last probe passes without one. |
| `Checking.HealthCheck.CheckOne` | internal/health/checker.go:178-221 | The object follows the state machine and notifies exactly on a change of state. |
| `Checking.Checker.CheckAll` | internal/health/checker.go:133-161 | Exactly the targets whose own interval, or the default one if they declare none, has passed are stamped and handed out, once each. |
| `Checking.Checker.Register` | internal/health/checker.go:61-80 | A known target keeps its state and takes the new settings; others are untouched. |
| `Checking.Checker.Unregister` | internal/health/checker.go:95-99 | One target is forgotten. |
| `Discovery.AbsorbMatches` | internal/discovery/reconciler.go:117-162 | After the first loop of Sync every listed enabled container that could be read is known with its present address, health, host and path; any other is as it was. |
| `Discovery.SyncSettles` | internal/discovery/reconciler.go:104-179 | A second Sync over the same listing has nothing to do. |
| `Discovery.PathsAgreeExactlyWhen` | internal/discovery/reconciler.go:182-206 | Sync and the start event make the same of an enabled container exactly when its configuration is valid and its labels give an address or a port, or it publishes none or port 80. |
| `Discovery.ReachedAt` | internal/discovery/reconciler.go:189-206 | A container is reached at its labelled address, else at its own at the labelled port, the private port of the first published binding, or port 80. |
| `Discovery.FirstPublishedPort` | internal/discovery/reconciler.go:509-520 | The port detected is that of the first binding that is published, and none if none is. |
| `Discovery.HealthyByReport` | internal/discovery/reconciler.go:208-216 | It counts as healthy if its health check says so, not if that says unhealthy, and otherwise exactly if it runs. |
| `Discovery.WrittenAsRead` | internal/discovery/reconciler.go:522-540 | Ports are written in decimal: what is written reads as the number. |
| `Discovery.Engine.Sync` | internal/discovery/reconciler.go:104-179 | The sink's calls replay to the container map; unlisted containers go; an error or a settled listing makes no call. |
| `Discovery.Engine.TakeIn` | internal/discovery/reconciler.go:117-162 | The first loop. |
| `Discovery.Engine.Sweep` | internal/discovery/reconciler.go:164-173 | The second loop, for any iteration order. |
| `Discovery.Engine.OnContainerStart` | internal/discovery/reconciler.go:294-341 | A valid enabled container is taken in and added, whatever was known. |
| `Discovery.Engine.OnContainerStop` | internal/discovery/reconciler.go:344-359 | A known container is removed once, an unknown one not at all. |
| `Sink.AddAddress` | cmd/dockrouter/main.go:930-948 | Adding a backend adds exactly its address to those served. |
| `Sink.DrainedShrinks` | cmd/dockrouter/main.go:965-967 | Removing a container adds no address. |
| `Sink.RouteSink.AddRoute` | cmd/dockrouter/main.go:821-946 | The checker's targets stay equal to the addresses the table serves; the backend is probed with its own settings; the pool of the route gains the backend and takes the strategy of the labels. |
| `Sink.AddedAsFound` | cmd/dockrouter/main.go:821-829 | The target is in rotation exactly if the container was found healthy, and keeps the statistics of its address. |
| `Sink.ValidIsFound` | cmd/dockrouter/main.go:831-839 | The route of a validated container is asked for by every request that names its host under its path. |
| `Sink.RouteSink.RemoveRoute` | cmd/dockrouter/main.go:965-983 | They stay equal: exactly the addresses no route serves any more stop being probed. |
| `Sink.RouteSink.StaleHealthTargets` | cmd/dockrouter/main.go:986-999 | The probed addresses no route serves. |
| `Sink.RouteSink.Probed` | internal/health/checker.go:178-216 | A finished probe changes its check, reports a change of state, and leaves the table alone. |
| `Sink.RouteSink.Notified` | cmd/dockrouter/main.go:199-207 | The callback marks the address in every pool as healthy iff the state is Healthy or Degraded. |
| `Callbacks.InOrderAgrees` | internal/health/checker.go:214-221 | Callbacks that run in the order of issue leave the table in agreement with the checker whenever none is waiting. |
| `Callbacks.AnyOrderAgreesExactlyWhen` | internal/health/checker.go:214-221 | The waiting callbacks lead to agreement in whatever order they run exactly when none of them says otherwise than the present state. |
| `Callbacks.OvertakingDisagrees` | internal/health/checker.go:214-221 | A run in which one callback overtakes another and an unhealthy target stays in rotation. |
| `Mirror.TableMirrorsEngine` | cmd/dockrouter/main.go:821-967 | Over any run of the engine's calls, marks by the checker and records by requests in which each AddRoute fits, the table serves exactly the engine's containers, one target each, under its route and with its address and weight. |
| `Mirror.MirroredThroughoutExactlyWhen` | cmd/dockrouter/main.go:821-967 | It does so after every event exactly when every AddRoute fits: a container that is known keeps its address and route, and no other one on the route has the address. |
| `Mirror.AddMirrorsExactlyWhen` | cmd/dockrouter/main.go:821-946 | One AddRoute keeps the mirror exactly when it fits; else an old target stays behind or the target was another container's. |
| `Mirror.AddRouteGains` | cmd/dockrouter/main.go:821-946 | AddRoute takes the step that run takes. |
| `Mirror.RemoveRouteLeaves` | cmd/dockrouter/main.go:965-967 | So does RemoveRoute. |
| `RateLimit.AdmissionBound` | internal/middleware/ratelimit.go:84-130 | Up to any time a key is admitted at most 1 + maxSize + refillRate * elapsed times, tokens left included. |
| `RateLimit.WindowBound` | internal/middleware/ratelimit.go:114-129 | In any later window at most maxSize + refillRate * length times. |
| `RateLimit.RejectedExactlyWhen` | internal/middleware/ratelimit.go:84-130 | A later call is rejected exactly if, for some call m up to it, the bucket size plus the refill since m minus the admissions charged since m is below one token; what remains after an admitted call is the least of these, less one. |
| `RateLimit.RestAdmits` | internal/middleware/ratelimit.go:114-129 | The time of one token admits a call, and the time of a whole bucket gives the whole burst back. |
| `RateLimit.RejectionsUnobservable` | internal/middleware/ratelimit.go:114-129 | Leaving out any rejected calls changes no other verdict and no remaining count. |
| `RateLimit.RefillTwice` | internal/middleware/ratelimit.go:114-119 | Refilling in two steps is refilling in one, whatever the sign of the rate. |
| `RateLimit.KeysIndependent` | internal/middleware/ratelimit.go:84-130 | Each key is served as if it were alone. |
| `RateLimit.ObjectServes` | internal/middleware/ratelimit.go:84-130 | Over runs of the limiter object with at most MAX_BUCKETS keys, its buckets and verdicts are those of this specification, whatever the order of its map. |
| `RateLimit.ObjectKeysIndependent` | internal/middleware/ratelimit.go:84-130 | So each key gets from the object what it would get alone, and the bounds hold of it. |
| `RateLimit.RateLimiter.constructor` | internal/middleware/ratelimit.go:30-51 | The defaults for window and size. |
| `RateLimit.RateLimiter.Allow` | internal/middleware/ratelimit.go:84-130 | One step of such a run: the key's bucket and the verdict follow the specification; other buckets change only by eviction of an oldest one at capacity. |
| `RateLimit.RateLimiter.FindOldest` | internal/middleware/ratelimit.go:92-104 | A bucket nobody has touched for longer than the others. |
| `CircuitBreaker.ClosedExactlyWhen` | internal/middleware/circuitbreaker.go:84-143 | Closed iff failures are below the threshold; while closed they are the failures since the last success. |
| `CircuitBreaker.OpenHoldsForWindow` | internal/middleware/circuitbreaker.go:91-98 | Open admits exactly strictly more than a window after the last recorded failure. |
| `CircuitBreaker.RefusedExactlyWhen` | internal/middleware/circuitbreaker.go:84-103 | A request is refused exactly if the breaker is open and no more than the window has passed since the last recorded failure. |
| `CircuitBreaker.NeverRefused` | internal/middleware/circuitbreaker.go:84-143 | Without as many failures as the threshold between two successes nobody is ever refused ... |
| `CircuitBreaker.StruckRefuses` | internal/middleware/circuitbreaker.go:84-121 | ... and from the first time there are, everybody is until the window has passed. |
| `CircuitBreaker.HalfOpenSince` | internal/middleware/circuitbreaker.go:112-142 | Half open: entered by an admitted request, no failure since, and as many successes as counted. |
| `CircuitBreaker.ClosesOnlyAfterThreeSuccesses` | internal/middleware/circuitbreaker.go:135-142 | It closes exactly by the third success since it opened half way, with no failure in between. |
| `CircuitBreaker.CircuitBreaker.Allow` | internal/middleware/circuitbreaker.go:84-103 | The object follows the state machine. |
| `CircuitBreaker.CircuitBreaker.RecordFailure` | internal/middleware/circuitbreaker.go:105-121 | The object follows the state machine. |
| `CircuitBreaker.CircuitBreaker.RecordSuccess` | internal/middleware/circuitbreaker.go:123-143 | The object follows the state machine. |
| `SSE.HubSafe` | internal/admin/sse.go:51-110 | In every interleaving: no channel closed twice or sent to after its close; each client receives, in order, a subsequence of a stretch of the accepted events; each event broadcast while it was registered is delivered, buffered or counted as dropped. |
| `SSE.BroadcastKeeps` | internal/admin/sse.go:71-80 | The broadcast step keeps all of that. |
| `SSE.MissedBroadcast` | internal/admin/sse.go:71-80 | A broadcast counts one drop for each client with a full buffer. |
| `SSE.MissedExactlyWhen` | internal/admin/sse.go:71-80 | In every interleaving a client has missed an event exactly if one was broadcast while ten were waiting for it. |
| `SSE.RefusedExactlyWhen` | internal/admin/sse.go:103-110 | At most a hundred events wait; Send has refused one exactly if it came when a hundred were; otherwise all are accepted in order. |
| `SSE.OpenAfterStop` | internal/admin/sse.go:87-100 | On any schedule with the sweep of Stop in it: a channel is open at the end exactly if it was registered too late for the sweep and no later step finished unregistering it. |
| `SSE.StopClosesAllExactlyWhen` | internal/admin/sse.go:84-100 | Stop has closed every channel exactly when every such late registration has been undone. |
| `SSE.SweepClosesAllExactlyWhen` | internal/admin/sse.go:84-100 | At the moment of the sweep it has, exactly when the loop is not between receiving a registration and listing it. |
| `SSE.StopCanLeak` | internal/admin/sse.go:51-100 | A run in which such a channel is never closed. |
| `SSEHubs.SSEHub.FinishBroadcast` | internal/admin/sse.go:71-80 | The broadcast loop, for any iteration order, offers the event to each client once. |
| `SSEHubs.SSEHub.OfferOne` | internal/admin/sse.go:74-79 | Enqueued, or counted as dropped when the buffer is full; the channel is open. |
| `SSEHubs.SSEHub.FinishRegister` | internal/admin/sse.go:56-59 | A received client joins the map. |
| `SSEHubs.SSEHub.FinishUnregister` | internal/admin/sse.go:61-67 | A client in the map leaves it and its channel is closed, once. |
| `SSEHubs.SSEHub.Sweep` | internal/admin/sse.go:94-98 | Stop closes the channels of all clients, once each. |
| `SSEHubs.SSEHub.Send` | internal/admin/sse.go:103-110 | Accepted, or counted as dropped when the queue is full. |
| `SSEHubs.SSEHub.Receive` | internal/admin/sse.go:167-168 | A handler takes the oldest buffered event. |
| `Signature.CutFrame` | internal/tls/acme.go:508-536 | The parser cuts a well-formed encoding into its two integers. |
| `Signature.CutExactlyWhen` | internal/tls/acme.go:508-536 | What is accepted: a sequence of two integers with one-byte lengths, in eight bytes or more; the sequence length and what follows are ignored. |
| `Signature.Framing` | internal/tls/acme.go:508-536 | The checks pass exactly on well-formed framing, and give the lengths of the two integers. |
| `Signature.FixedIsPadded` | internal/tls/acme.go:545-552 | Padding the minimal bytes of a number gives its fixed-width form. |
| `Signature.FixedValue` | internal/tls/acme.go:538-542 | The fixed-width form denotes the number. |
| `Signature.RoundTrip` | internal/tls/acme.go:508-543 | For all r, s in [1, 2^256) the encoding parses, and the padded parts are the 32-byte big-endian r and s. |
| `Signature.PadBytes` | internal/tls/acme.go:545-552 | The low-order bytes, or leading zeros and the bytes; the result may share the input's array. |
| `Signature.Append` | internal/tls/acme.go:542 | Appending in place, even over the bytes appended, gives the concatenation. |
| `Signature.CutOut` | internal/tls/acme.go:508-536 | Errors exactly on malformed framing, and never reads out of range. |
| `Signature.ParseSignature` | internal/tls/acme.go:508-543 | On any input: an error exactly where the framing is malformed, else the padded parts in order, although appending may write into the input. |

## Left out

- Sockets, HTTP parsing, the reverse proxy, WebSocket tunnelling, TLS and ACME calls, the Docker client, the dashboard, logging, metrics, configuration parsing: opaque to the properties here. Replies, probes, listings and inspections are parameters.
- internal/router/router.go:70-106: the 502 page and the early 503 for an empty rotation before the handler is built: they add no state. The markup of the error pages is left out.
- The middleware chain and its per-route cache (internal/router/route_middleware.go): a cached handler keeps an old route, so no coherence property holds of it.
- `Table.Add`, `Get`, `List`, `ListByHost`, `Hosts`, `Count` and `RadixTree.List`: the first keys by a caller's ID and is not used in production, the others only read.
- Label parsing: `RouteConfig` is taken as parsed, and one flag stands for the checks on TLS labels.
- Integer widths: statistics, connection counts and weight sums are unbounded; the ticket counter, the address hash and the connection maximum are 64 bits wide.
- Strings: lower-casing and trimming cover ASCII, and the address hash reads bytes where the program reads code points.
- Floating point: token counts and rates are real numbers.
- `LastCheck` of a target: written by the program and read by the dashboard only.
- Radix.RadixNode.DeleteBelow: does not say whether the child was compacted, because lookups cannot tell; that no routeless chains build up is not claimed (they can).
- Radix.RadixTree.IsEmpty: states one direction only. A tree can hold a node without route or children, so the converse is false of the code.
- RouteTable.Table.Upsert: the caller brings a pool and a target that no route holds yet, as cmd/dockrouter/main.go's AddRoute does; aliasing pools between routes is outside the model.
- RouteTable.Table.Match: its promise on the flat map is for tables in agreement, which holds over all runs with clean path prefixes.
- RateLimit.AdmissionBound: does not cover eviction at capacity or the cleanup goroutine, because a bucket that is deleted comes back full.
- RateLimit.KeysIndependent: covers calls during which nothing is evicted; `ObjectServes` shows that with at most 10000 keys nothing is.
- Completeness.FailoverCompleteExactlyWhen: requires n(n-1) + maxRetries to fit into 64 bits, because at the wrap of the counter the tickets lose their order. It is about round-robin; `Weighted` and `Sticky` settle the other strategies, and nothing is claimed of random selection.
- Sticky.WeightedFailsOverExactlyWhen: settles the second attempt from one ticket; `Weighted` has the later ones.
- Weighted.WeightedCompleteExactlyWhen: for four attempts and more, in a rotation of which some targets but not all are one failure from ejection, its condition is necessary only (`SettledNotEnough`): each ejection changes the divisors that decide about the next ticket.
- Recovery.EjectedStaysOutExactlyWhen: the check has counted fewer failures than its settings tolerate in silence, as every healthy check has (`HealthyIsQuiet`) unless a later registration lowered its threshold.
- Ledger.TargetHistory: stated for calls other than removals; `RemoveDropsContainer` says that removing a container leaves every other target as it was.
- Traffic.Conserved: an address that is not served joins only while it is quiet; `AdditionKeepsExactlyWhen` shows that nothing weaker will do.
- ProxyHandler.Handle: a backend's reply is a function of the attempt, the address and the body, which covers every reply but leaves streaming over time out; a panic in the proxy is not modelled.
- SSE.HubSafe: a broadcast offers to all clients in one step. Handlers only receive from their own channel, so what they do in between could as well happen before or after.
- Handlers write what they receive to their connections: I/O, not modelled; nor are keepalive ticks.
- Checking: the timeout and type of a probe and the registration of the callback; the checker is taken to be present.
