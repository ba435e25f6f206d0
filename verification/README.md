# Verified model of the gateway's scheduling, limiting, logging, catalog and administration logic

The gateway puts several Ollama backends behind one API. This project models the parts whose
guarantees are much stronger than their code is long, and proves those guarantees with Dafny 4.11:

- **Scheduling** (`Swrr`, `SwrrCycle`, `World`, `Backends`, `Manager`, `Scheduling`): smooth weighted
  round-robin over pools that are rebuilt for every request and share their backends. `Backends` and
  `Manager` are the code, as classes that update shared objects in place. A selection, a health result, an
  enable switch and a configuration update are each one step of `World`, the state machine of all backends
  ever created; creating a backend is one step and upserting a managed one is two. `Scheduling` proves that
  from a new manager every sequence of such calls, with pools built at any time and used at any later time,
  and backends added, changed and removed in between, is a run of `World`. `Swrr` has the selection as a
  function, its conservation law and its sum-of-squares potential; `SwrrCycle` the exact cycle, the deviation
  bound and the scaling law of a fixed routable pool.
- **Rate limiting** (`TokenBucket`, `Limiter`, `StoreConformance`, `Eviction`): the token bucket with its
  exact conformance theorem and exact Retry-After, both carried to the store that serves all keys, and the
  condition under which evicting idle buckets cannot be noticed.
- **Usage logging** (`UsageLogger`, `Delivery`, `LogCalls`): producers, a bounded drop-oldest channel, a
  batching consumer and the shutdown drain, as a step system in which the separate channel operations
  interleave freely, and the code run by one goroutine at a time; when records reach the store; and when a
  call of Log can lose its record.
- **Usage capture** (`UsageCapture`): the incremental line parser of streamed responses against one
  fold over the whole stream.
- **Catalog** (`Normalize`, `Discovery`, `CatalogStore`, `Registry`, `Resolver`): canonical names, discovery, merging
  under Go's arbitrary map order, reconciliation of the catalog tables, resolution and listing.
- **Administration** (`Text`, `Formats`, `Access`, `BackendStore`, `Dashboard`): the text formats and
  their round trips, the access form, and referential integrity between configured, managed and stored
  backends and the catalog.
- **Reload** (`RuntimePolicy`, `Reloader`, `ReloadBackends`): which changes a running gateway accepts,
  the debouncing watcher, and what a reload does to the managed backends.

`Wrappers` and `Config` hold the shared result types and configuration records. `dafny verify
dfyconfig.toml` checks the whole project.

## Where the code falls short of what one might expect

Each of these is a theorem; where the code does meet the expectation under a condition, the condition is
exact:

- Merging catalog names is independent of Go's map order, and repeating a synchronisation reports no
  changes, exactly if merged names carry no conflicting weights (`Normalize.OrderNeverMattersIff`,
  `CatalogStore.RepeatIsSilentIff`).
- Evicting idle buckets is invisible exactly if every key's bucket refills within its time to live; the
  clean-up ignores a time to live from the user database (`Eviction.EvictionInvisibleIffRefillsInTime`,
  `Eviction.DatabaseTtlIsNotUsed`).
- An allow list of blanks refuses every model but hides none. A request succeeds exactly when the key that it
  normalizes to is listed, unless the allow list is such a list and something is on offer: a catalog key that
  is not denied, not aliased away, in lower case and not starting with white space
  (`Registry.ListingAgreesIff`, `Registry.SomeOfferedIff`).
- What is listed is not always what can be requested. The name that the listing shows for a model leads to
  that model exactly if the user's alias for it, or the name itself when there is none, normalizes to the
  model's key (`Registry.ListedNameResolvesIff`); some name leads to it exactly if the key is in lower case,
  does not start with white space and is not aliased away, or an alias leads to it
  (`Registry.ListedCanBeRequestedIff`).
- Normalizing a name twice is normalizing it once exactly if the first result does not end in white space and
  not in ":latest" (`Normalize.NormalizedTwiceIff`). Discovery and the store both normalize, so under exactly
  this condition a model is found by the name that its backend reports (`Discovery.ReportedNameResolvesIff`).
- `Log` loses its record needlessly in two ways: another producer takes the place that it has just freed
  (`LogCalls.SlotIsTaken`), or the consumer empties the channel before its receive, for every buffer size
  (`LogCalls.LogCanGiveUpOnEmptyChannel`). A record can still be given up after the first send exactly if
  that send found the channel full (`LogCalls.CanBeGivenUpIffFull`).
- The comparison of backend headers is equality exactly for headers without empty values
  (`RuntimePolicy.HeadersEqualIff`).
- Creating a backend with an unparsable URL writes its row before the manager refuses, exactly when there
  is a backend table (`Dashboard.Handler.CreateBackend`).
- The removal of a backend checks the dashboard's catalog, while requests are routed by the resolver's. Routing
  stays intact exactly if no model of the resolver's catalog refers to the backend either
  (`Dashboard.Handler.RemoveBackend`). An edit that is not persisted makes the two differ. From every sound
  state with a catalog table in which exactly one model refers to the backend, an accepted edit without that
  reference, when it is not persisted, and the removal of the backend make every request that resolves to the
  model end in the internal error (`Dashboard.UnfinishedEditBreaksRouting`).
- A reload of the configuration file changes the managed backends without asking the dashboard. With a backend
  table the catalog stays routable; without one, a successful reload keeps it so exactly if the file names
  every backend that the catalog refers to (`Dashboard.Reload`).
- Revoking access to the only model that a user's allow list names empties the list, which allows
  everything that is not denied (`Access.OtherModelsUnchanged`). The form compares names as they are, while
  requests are judged by normal forms. A grant reaches requests exactly if no other spelling of the model is
  denied and, in addition, the key is a normal form of itself, the user has no allow list, or another spelling
  is allowed. A revocation misses them exactly if the key is no normal form of itself, no other spelling is
  denied, and the allow list is empty without the key or has another spelling (`Access.FormDecidesRequests`).
  Over all users, granting and revoking do what they say exactly for keys that are normal forms of themselves
  (`Access.GrantingWorksIff`, `Access.RevokingWorksIff`).

## Model

| member | source | states |
|---|---|---|
| `Swrr.SelectFailsIffNoneRoutable` | internal/backends/pool.go:52-82 | with positive weights, a selection fails exactly if no entry is routable, and then changes nothing |
| `Swrr.SelectPicksFirstHighest` | internal/backends/pool.go:60-81 | a selection on distinct backends picks the first entry of highest raised weight, raises every routable entry by its weight, takes the total off the picked one and touches nothing else |
| `Swrr.FirstHighestUnique` | internal/backends/pool.go:70-73 | the strict comparison leaves one possible pick |
| `Swrr.SelectConserves` | internal/backends/pool.go:68-80 | the sum of all current weights, in and outside the pool, does not change |
| `Swrr.SelectEnergy` | internal/backends/pool.go:60-81 | the sum of squares of all current weights grows by at most W^2 minus the squares of the routable weights, even if a backend is listed twice |
| `Swrr.EnergyBounds` | internal/backends/pool.go:60-81 | no single current weight squared exceeds the sum of squares |
| `SwrrCycle.StaysBalanced` | internal/backends/pool.go:64-81 | in every run from rest each current weight stays above -W, their sum stays 0 and other backends keep theirs |
| `SwrrCycle.Ledger` | internal/backends/pool.go:64-81 | after k selections the current weight is k times the weight minus W for each pick |
| `SwrrCycle.Deviation` | internal/backends/pool.go:64-81 | after any k selections k*w_i - W*count_i lies above -W and is at most (n-1)*(W-1) |
| `SwrrCycle.ExactCycle` | internal/backends/pool.go:52-82 | W selections from rest pick entry i exactly w_i times and return every current weight to zero |
| `SwrrCycle.Periodic` | internal/backends/pool.go:52-82 | states and picks repeat with period W |
| `SwrrCycle.EveryWindowIsExact` | internal/backends/pool.go:52-82 | every window of W consecutive picks has exactly w_i picks of i |
| `SwrrCycle.ScalingKeepsPicks` | internal/backends/pool.go:64-81 | multiplying all weights by g leaves the sequence of picks as it is |
| `SwrrCycle.ShortCycle` | internal/backends/pool.go:64-81 | with a common factor g, W/g selections already give exact counts and return every current weight to zero |
| `SwrrCycle.ShortPeriod` | internal/backends/pool.go:52-82 | so with a common factor g the states and the picks repeat after W/g selections |
| `World.RunsStayAccounted` | internal/backends/pool.go:52-82 | over every interleaving of selections, health, enable and weight changes: current weights sum to zero, effectiveWeight follows health, and the sum of squares is at most that of W^2 - sum(w_i^2) over the selections |
| `World.RunsRouteSoundly` | internal/backends/pool.go:60-78 | after any run each current weight is within limit*sqrt(selections), and a selection fails exactly if no entry is healthy, enabled and positively weighted |
| `World.InRange` | internal/backends/pool.go:62 | while selections*limit^2 is at most MAX_INT^2, current weights between selections stay in the range of a Go int, above the sentinel |
| `World.RaisedInRange` | internal/backends/pool.go:64-74 | while selections*limit^2 is at most (MAX_INT - limit)^2, so do the raised weights that a further selection stores after any number of entries, and its running total |
| `World.BuiltPoolsRouteSoundly` | internal/models/resolver.go:86-101 | the pools that the gateway builds have positive weights throughout, so selections on them are sound after any run, whatever is routable |
| `World.RunGoesOn` | internal/backends/pool.go:52-82 | one more event makes a longer run |
| `World.HealthDecides` | internal/backends/backend.go:352-359 | after SetHealth(b, false) b is not routed to; after SetHealth(b, true) it is exactly if it is enabled and positively weighted; every other backend and all current weights are as before |
| `World.SwitchDecides` | internal/backends/backend.go:340-342 | the same for the enable switch: off keeps b out, on leaves it to health and weight; nothing else changes |
| `World.RoutableIff` | internal/backends/backend.go:325-376 | after every run exactly those backends are routed to that have been created, were last reported healthy, last switched on and last configured with a positive weight |
| `Backends.Backend.constructor` | internal/backends/backend.go:40-61 | a new backend is configured as asked, healthy, enabled and at rest |
| `Backends.Backend.SetEnabled` | internal/backends/backend.go:340-342 | one SetEnabled step of the world of all backends |
| `Backends.Backend.SetHealth` | internal/backends/backend.go:352-359 | the flag has the reported value and effectiveWeight is the weight of a healthy backend and 0 for an unhealthy one; current weight and switch stay; one SetHealth step of the world of all backends |
| `Backends.Backend.UpdateConfig` | internal/backends/backend.go:362-376 | one UpdateWeight step, with all configurable fields replaced; a bad URL changes nothing |
| `Backends.BackendPool.constructor` | internal/backends/pool.go:27-42 | a weight that is not positive is replaced by the backend's own |
| `Backends.BackendPool.Sweep` | internal/backends/pool.go:60-74 | the loop of Select, in place on shared backends, computes the sweep of the specification |
| `Backends.BackendPool.Select` | internal/backends/pool.go:52-82 | the call is one Pick step of the world of all backends and returns the backend that the specification picks |
| `Backends.CreationIsStep` | internal/backends/backend.go:46-60 | adding a new backend to the others is one Create step |
| `Manager.Manager.constructor` | internal/backends/manager.go:26-46 | one backend at rest for each configuration, in order; the index knows the last of each name |
| `Manager.NewManager` | internal/backends/manager.go:21-53 | fails exactly on no backends or a bad URL; coherent exactly if the names are distinct |
| `Manager.CoherentIffDistinctNames` | internal/backends/manager.go:31-46 | list and index agree exactly if no name is configured twice |
| `Manager.Manager.PoolForModel` | internal/backends/manager.go:75-95 | fails exactly on an unknown backend; otherwise the pool has the managed backends themselves with the reference or configured weights |
| `Manager.Manager.DefaultPool` | internal/backends/manager.go:104-119 | the pool of all managed backends with their configured or default weights, all positive |
| `Manager.Manager.UpsertBackend` | internal/backends/manager.go:122-152 | list and index stay coherent; the backend runs with the values asked for, defaults in place of unusable ones, and is enabled; an existing one keeps identity, health and scheduling state; one Create step, or an UpdateWeight and a SetEnabled step; a bad URL changes nothing |
| `Manager.Manager.RemoveBackend` | internal/backends/manager.go:160-177 | list and index lose exactly the named backend, the others keep their order, and both stay coherent |
| `Manager.DistinctRefsGiveDistinctPool` | internal/backends/manager.go:75-95 | distinct references to a coherent manager give a pool of distinct backends |
| `Scheduling.Operate` | internal/backends/manager.go:21-177 | from a configuration with distinct names: the backends are created, and then every sequence of building pools, selecting on any pool built so far, health results, switches, configuration updates, upserts and removals does, call by call, what `Scheduling.Does` says, with the event of each call added to a fair run; list and index agree, every pool is positive with total at most the limit, and the backends are where the run leads |
| `Scheduling.Play` | internal/backends/backend.go:334-376 | the same from any such state, with the backends and pools that exist kept |
| `Scheduling.PlayOne` | internal/backends/manager.go:75-177 | each call has its effect on pools and managed backends, extends the run by its own events and keeps all of this |
| `Scheduling.Manage` | internal/backends/manager.go:122-152 | an upsert adds a new backend to those ever managed, as one Create event, or gives an UpdateWeight and a SetEnabled event |
| `Scheduling.SelectAfterwards` | internal/proxy/handler.go:71-75 | in every such state, while selections*limit^2 is at most MAX_INT^2, a selection on any pool, however long ago it was built, fails exactly if none of its backends was last reported healthy, last switched on and last given a positive weight, and then changes nothing |
| `TokenBucket.TokenBucket.constructor` | internal/ratelimit/limiter.go:29-36 | a new bucket has its capacity, even when that is negative, and otherwise negative values count as zero |
| `TokenBucket.TokenBucket.Take` | internal/ratelimit/limiter.go:40-58 | the answer and the new state are those of the specification; a call for no tokens succeeds and changes nothing |
| `TokenBucket.TokenBucket.RetryAfterSeconds` | internal/ratelimit/limiter.go:63-76 | the answer is that of the specification, and zero without refilling or when there is a token |
| `TokenBucket.Conformance` | internal/ratelimit/limiter.go:40-58 | over any run at non-decreasing times, a take of n succeeds exactly if for every earlier start the tokens granted since plus n are within capacity + rate*length |
| `TokenBucket.WindowBound` | internal/ratelimit/limiter.go:40-58 | grants in any window never exceed capacity + rate*length |
| `TokenBucket.RefusalsKeepLevel` | internal/ratelimit/limiter.go:47-51 | refused calls do not change the level at any later time: lazy refilling is additive |
| `TokenBucket.RetryAfterIsFirst` | internal/ratelimit/limiter.go:63-76 | RetryAfterSeconds is the first whole number of seconds after which there is a token |
| `TokenBucket.RetryAfterCovers` | internal/ratelimit/limiter.go:70-75 | for every refilling bucket without a token, the wait covers what is missing and a second less does not |
| `TokenBucket.RetryAfterIsExact` | internal/ratelimit/limiter.go:63-76 | after that wait a take succeeds and one second earlier it is refused, however many refusals come in between |
| `Limiter.LocalLimiter.ResolveSettings` | internal/ratelimit/limiter.go:113-145 | each positive field of the user's own limits, from the user database or else from the configuration file, replaces the default; the others stay |
| `Limiter.LocalLimiter.Allow` | internal/ratelimit/limiter.go:171-177 | a request takes one token from its own bucket only, with the settings of its key; the buckets of all other keys are the same objects with the same values |
| `Limiter.LocalLimiter.AllowWith` | internal/ratelimit/limiter.go:205-211 | the answer and the retry time; the buckets of all other keys are the same objects with the same values |
| `Limiter.LocalLimiter.GetOrCreateBucket` | internal/ratelimit/limiter.go:213-224 | an existing bucket is used as it is, a missing one is created full |
| `Limiter.LocalLimiter.Cleanup` | internal/ratelimit/limiter.go:226-239 | exactly the buckets idle for longer than their time to live are dropped; the others are the same objects |
| `Limiter.CleanupTtlIs` | internal/ratelimit/limiter.go:241-265 | the time to live is a positive one from the configuration file, or else the default |
| `StoreConformance.StoreIsBuckets` | internal/ratelimit/limiter.go:205-224 | over any run of requests for any keys, each key has the bucket that its own requests alone would have left |
| `StoreConformance.StoreConforms` | internal/ratelimit/limiter.go:171-224 | over any run of requests for any keys, a request is allowed exactly if one bucket with the key's settings conforms to the earlier requests for this key alone |
| `StoreConformance.StoreRetryAfter` | internal/ratelimit/limiter.go:205-211 | the retry time of a refusal is the first whole number of seconds after which the key's next request is allowed, whatever other keys ask in between |
| `Eviction.SameAnswers` | internal/ratelimit/limiter.go:205-239 | if every bucket refills within its time to live, a store with clean-ups at arbitrary moments answers every request sequence like one that never evicts |
| `Eviction.MatchingStep` | internal/ratelimit/limiter.go:205-239 | the simulation: common buckets are equal and evicted ones would be full |
| `Eviction.EvictionShows` | internal/ratelimit/limiter.go:226-239 | if some bucket does not refill in time, some request sequence tells the two stores apart |
| `Eviction.EvictionInvisibleIffRefillsInTime` | internal/ratelimit/limiter.go:205-239 | eviction is invisible exactly if ttl*rate >= burst for every key |
| `Eviction.CleanupIsRun` | internal/ratelimit/limiter.go:226-239 | the clean-up of the store is a run of one clean-up event for each key, in whatever order |
| `Eviction.DatabaseTtlIsNotUsed` | internal/ratelimit/limiter.go:241-265 | the clean-up does not see a time to live from the user database, so such a setting can make eviction visible |
| `UsageLogger.EveryRunAccounts` | internal/usage/logger.go:72-136 | under every interleaving each logged record is in exactly one place: persisted, lost, discarded, given up, channel, batch or a call of Log; and the consumer's records followed by the channel are a subsequence of the enqueue order |
| `UsageLogger.EachRecordHasOnePlace` | internal/usage/logger.go:72-136 | a record logged once is in one place and is received at most once |
| `UsageLogger.StaysBounded` | internal/usage/logger.go:97-136 | the channel never exceeds its buffer and every BatchInsert gets between 1 and batchSize records |
| `UsageLogger.EveryRunIsBounded` | internal/usage/logger.go:55-136 | the same for every run from a new logger |
| `Delivery.StoreCalls` | internal/usage/logger.go:101-136 | a tick, the stop signal and the end of the drain hand over exactly the batch, if there is one, and empty it; a received record does so exactly when it has filled the batch; no other step calls the store |
| `Delivery.TickHandsOver` | internal/usage/logger.go:132-133 | in every run a tick is possible whenever the consumer waits, and afterwards every record received so far has been handed over |
| `Delivery.StopIsClosed` | internal/usage/logger.go:139-142 | stop is set by closing alone, and stays |
| `Delivery.ConsumerRuns` | internal/usage/logger.go:97-136 | the consumer alone loses and reorders nothing, and its steps other than ticks run out |
| `Delivery.ShutdownDrains` | internal/usage/logger.go:113-148 | without Log after stop, the drain ends with channel and batch empty and everything queued or batched handed to BatchInsert once, in order |
| `Delivery.DrainProgresses` | internal/usage/logger.go:113-126 | until it has stopped, a step other than a tick is possible |
| `LogCalls.UninterruptedLog` | internal/usage/logger.go:72-91 | uninterrupted, Log always queues its record and drops at most the oldest |
| `LogCalls.CanBeGivenUpIffFull` | internal/usage/logger.go:73-89 | without a further call for it, a record can still be given up after the first send exactly if that send found the channel full |
| `LogCalls.SlotIsTaken` | internal/usage/logger.go:79-86 | another producer can take the place between Log's receive and its second send |
| `LogCalls.LogCanGiveUpOnEmptyChannel` | internal/usage/logger.go:79-89 | a run from a new logger, for every buffer size, in which the consumer takes everything and Log gives its record up although the channel is empty and nothing was discarded |
| `UsageLogger.UsageLogger.constructor` | internal/usage/logger.go:44-68 | sizes and an interval that are not positive are replaced by the defaults |
| `UsageLogger.UsageLogger.Log` | internal/usage/logger.go:72-91 | the new record is queued last; a full channel loses its oldest one, for one goroutine at a time |
| `UsageLogger.UsageLogger.Flush` | internal/usage/logger.go:101-109 | an empty batch is not inserted; otherwise the whole batch is handed over once, whatever comes of it |
| `UsageLogger.UsageLogger.Consume` | internal/usage/logger.go:127-131 | the oldest record follows those handed over or batched before; the store is called, with the whole batch, exactly when that is full |
| `UsageLogger.UsageLogger.Drain` | internal/usage/logger.go:113-126 | the shutdown path ends with everything handed over in order; between the first and the last batch all are full |
| `UsageCapture.StreamingUsageCaptureWriter.Write` | internal/proxy/response.go:33-42 | the bytes parsed are exactly those the underlying writer took; the state is that of the whole stream so far |
| `UsageCapture.StreamingUsageCaptureWriter.ParseForUsage` | internal/proxy/response.go:45-71 | the loop computes the fold over the complete lines and leaves the partial one |
| `UsageCapture.LinesIffUnlines` | internal/proxy/response.go:49-55 | the lines and the rest are the one way to cut a stream at its newlines |
| `UsageCapture.ChunkingIndependence` | internal/proxy/response.go:33-71 | for every split into pieces the state is one fold over the complete lines of the concatenation, and the buffer is the unfinished line |
| `UsageCapture.SplitsAgree` | internal/proxy/response.go:45-71 | two splits of one stream lead to the same state |
| `UsageCapture.PromptIsFirstNonZero` | internal/proxy/response.go:62-66 | the prompt count is the first non-zero one |
| `UsageCapture.NoPrompt` | internal/proxy/response.go:62-66 | it is zero if there is none |
| `UsageCapture.EvalIsLast` | internal/proxy/response.go:67-69 | the completion count is the last one |
| `UsageCapture.NoEval` | internal/proxy/response.go:67-69 | it is zero if there is none |
| `UsageCapture.OneLineAgrees` | internal/proxy/response.go:86-100 | streaming one line captures what the non-streaming extraction finds in it |
| `Normalize.NormalizedTwiceIff` | internal/models/normalize.go:14-20 | normalizing twice is normalizing once exactly if the first result does not end in white space and not in ":latest" |
| `Normalize.NotIdempotent` | internal/models/normalize.go:14-20 | one name for each of the two ways to fail |
| `Normalize.NormalFormIff` | internal/models/normalize.go:14-20 | the names that normalizing leaves alone |
| `Normalize.NormalizedForm` | internal/models/normalize.go:14-20 | a normal form is in lower case and does not start with white space |
| `Normalize.ReachableIff` | internal/models/normalize.go:14-20 | the keys that are normal forms of some name are exactly those |
| `Normalize.NormalizedIs` | internal/models/normalize.go:14-20 | every name, in lower case, is its normal form, perhaps followed by one ":latest", with all its outer white space around that |
| `Normalize.LowerIs` | internal/models/normalize.go:15 | lower-casing maps the capitals to their letters and nothing else |
| `Normalize.NormalizeCatalog` | internal/models/normalize.go:24-56 | the result is the merge of the entries in some order of the keys, with one entry under each non-empty normal form |
| `Normalize.MergeRefs` | internal/models/normalize.go:39-52 | the inner loops add the references to backends not seen before |
| `Normalize.MergeOneByOne` | internal/models/normalize.go:39-52 | references are merged one after the other, which fixes the order of the merged list |
| `Normalize.BuildNormalizes` | internal/models/normalize.go:22-56 | for every order: the keys are the non-empty normal forms, and each entry has one reference to every backend that its names refer to, taken from one of them |
| `Normalize.FirstWins` | internal/models/normalize.go:47-51 | the entry that comes first decides the weights of its backends |
| `Normalize.OrderNeverMattersIff` | internal/models/normalize.go:24-56 | all orders give the same weights exactly if merged names carry no conflicting weights |
| `Discovery.DiscoverCatalog` | internal/models/discovery.go:31-95 | the loops compute the catalog of the backends that answered and the numbers of those that did and did not; an error is returned exactly if there are no backends or one did not answer, and says which of the three cases it is |
| `Discovery.AnsweredIs` | internal/models/discovery.go:38-45 | the number counted is that of the backends that answered |
| `Discovery.DiscoveredServes` | internal/models/discovery.go:52-80 | the catalog refers to a backend for a model exactly if the backend reported some name of it |
| `Discovery.DiscoveredWeighs` | internal/models/discovery.go:47-77 | the first report of a model by a backend gives the reference the backend's own weight, or 1 if that is not positive; entries have their key as the name and refer to a backend once |
| `Discovery.ReportedIsFiled` | internal/models/store.go:84-265 | after a synchronisation a reported name is filed under its second normal form, with the backend that reported it |
| `Discovery.ReportedNameResolvesIff` | internal/models/registry.go:47-82 | requesting a model by a reported name gives the entry of that name exactly if the normal form does not end in white space and not in ":latest" |
| `CatalogStore.Store.LoadActiveCatalog` | internal/models/store.go:34-80 | the active models that have backends, with display names, ascending backends and clamped weights |
| `CatalogStore.LoadedIs` | internal/models/store.go:34-80 | entry by entry: which models are loaded, under which display name, with which backends in which order and which weights |
| `CatalogStore.Store.SyncDiscoveredCatalog` | internal/models/store.go:84-265 | tables and statistics after the synchronisation; a failed transaction changes nothing |
| `CatalogStore.NormalizedRefs` | internal/models/store.go:192-202 | the weights of the rows, a later reference overriding an earlier one |
| `Normalize.WeightsLast` | internal/models/store.go:192-202 | of several references to a backend the last one decides, with 1 for a weight that is not positive |
| `CatalogStore.RefsDiffer` | internal/models/store.go:208-216 | comparing the sizes and one direction of the references decides equality |
| `CatalogStore.SyncThenLoad` | internal/models/store.go:82-265 | after a synchronisation the active catalog is exactly the normalized one without models that have no backend; weights are at least 1, existing non-empty display names are kept |
| `CatalogStore.SyncedIs` | internal/models/store.go:84-265 | row by row: synchronised models are active and keep the display name of their row; all others become inactive and keep display name and references |
| `CatalogStore.StatsAreExact` | internal/models/store.go:204-258 | Added is the growth in rows, Updated the rows whose activity or backends changed, Deactivated the models that ceased to be active |
| `CatalogStore.RepeatIsSilentIff` | internal/models/store.go:84-265 | repeating a synchronisation reports 0/0/0 for all iteration orders exactly if merged names carry no conflicting weights |
| `CatalogStore.Store.UpsertModel` | internal/models/store.go:268-331 | when an upsert is refused; otherwise the row is active with the display name or else the name, and no row of another model changes |
| `CatalogStore.CollectRefs` | internal/models/store.go:274-290 | the references that an upsert stores |
| `CatalogStore.UpsertRefsAre` | internal/models/store.go:274-290 | they are distinct, named, at least 1, and cover every named backend |
| `CatalogStore.UpsertRefsFirst` | internal/models/store.go:274-290 | the first reference to a backend decides its weight, with 1 for one that is not positive |
| `CatalogStore.UpsertThenLoad` | internal/models/store.go:268-331 | after an upsert the active catalog has the new entry and is otherwise as it was |
| `CatalogStore.Store.DeactivateModel` | internal/models/store.go:334-362 | when a deactivation is refused; otherwise the one row becomes inactive and nothing else changes |
| `CatalogStore.DeactivateThenLoad` | internal/models/store.go:334-362 | after a deactivation the active catalog has lost the model only |
| `CatalogStore.Store.ReplaceModelPricing` | internal/models/store.go:399-457 | the table has exactly the given prices of known models; a failed transaction changes nothing |
| `Registry.ResolveModel` | internal/models/registry.go:47-82 | the searching loops compute the resolution; which of the three refusals a request gets is stated by the key, the deny list and the allow list |
| `Registry.RefusalsAre` | internal/models/registry.go:16-82 | an unknown key is not found, with status 404; a known one on the deny list is denied, with 403; a known one that is not denied is refused, with 403, exactly if there is an allow list without it; otherwise the key resolves to its backends |
| `Registry.TargetMeans` | internal/models/registry.go:48-55 | the key: the alias of the name as written, else the alias of its normal form, else the normal form; empty aliases do not count |
| `Registry.AliasMeansTarget` | internal/models/registry.go:48-55 | an aliased request does what its target does without aliases: same model and backends, or same status |
| `Registry.VisibleModelsFor` | internal/models/registry.go:86-120 | exactly the visible models are listed, each once by its display name, in some order |
| `Registry.ResolvedIffAccessible` | internal/models/registry.go:57-81 | a request that no alias redirects succeeds exactly if the catalog has the model and the rules allow it |
| `Registry.ListingAgreesWithResolution` | internal/models/registry.go:47-120 | under an allow list that is empty or names a model, a request succeeds exactly if its normal form is the key of a listed model |
| `Registry.ListingAgreesIff` | internal/models/registry.go:70-113 | the exact condition for requests to succeed for the keys of the listed models, and for no others |
| `Registry.SomeOfferedIff` | internal/models/registry.go:49-61 | some name stands for an offered model exactly if a reachable key of the catalog is not denied |
| `Registry.ListedNameResolvesIff` | internal/models/registry.go:47-120 | requesting a listed model by the name shown gives that model exactly if the user's alias for that name, or the name itself when there is none, normalizes to its key |
| `Registry.ListedKeyResolvesIff` | internal/models/registry.go:47-120 | for models shown by their key: exactly if the key is in lower case, without white space around it and without ":latest" |
| `Registry.ListedCanBeRequestedIff` | internal/models/registry.go:47-120 | some request gives a listed model exactly if its key has the form of a normalized name and is not aliased away, or an alias leads to it |
| `Registry.UnaliasedName` | internal/models/registry.go:48-55 | a key of that form is the normal form of a name that no alias redirects |
| `Registry.UnreachableKey` | internal/models/registry.go:48-60 | a listed key of another form is never what a request resolves to |
| `Registry.BuildRegistryFromCatalog` | internal/models/resolver.go:160-176 | the registry has the catalog's entries with names and backends |
| `Registry.RegistryReads` | internal/models/resolver.go:160-176 | each entry has the display name, or else the key, and the backends in their order |
| `Resolver.Resolver.RefreshCatalog` | internal/models/resolver.go:129-144 | afterwards the resolver routes against the given catalog |
| `Resolver.Resolver.Resolve` | internal/models/resolver.go:74-113 | 404 exactly for an unknown key, 403 exactly for a known one that is denied or not on a non-empty allow list, 500 exactly if a backend of an accessible model is not managed; otherwise the pool, with positive weights |
| `Resolver.WeightInDistinct` | internal/models/resolver.go:88-96 | the weight found for a backend is the clamped one of its own reference |
| `Resolver.WeightInFirst` | internal/models/resolver.go:88-96 | of any list, the first positive weight of the backend is found |
| `Resolver.RoutesCatalogEntry` | internal/models/resolver.go:74-113 | a resolved model is routed to the backends of its catalog entry with their weights |
| `Formats.SplitCSV` | internal/dashboard/handler.go:2036-2055 | the trimmed items without repetitions |
| `Formats.UniqueGrows` | internal/dashboard/handler.go:2041-2053 | the list is in the order of first occurrence: further items only add to its end |
| `Formats.ListRoundTrip` | internal/dashboard/handler.go:2036-2055 | for every text, the joined list parses to the same list |
| `Formats.ParseAliases` | internal/dashboard/handler.go:2057-2081 | the loop computes the alias table or the first error |
| `Formats.AliasesFailIff` | internal/dashboard/handler.go:2065-2078 | a text is refused exactly if some entry lacks the colon, the alias or the model |
| `Formats.AliasLastWins` | internal/dashboard/handler.go:2078 | the last entry of an alias decides its model |
| `Formats.AliasHasEntry` | internal/dashboard/handler.go:2065-2078 | every alias of the result has such an entry |
| `Formats.FormatAliases` | internal/dashboard/handler.go:2083-2097 | the entries in ascending order of the aliases |
| `Formats.AliasRoundTrip` | internal/dashboard/handler.go:2057-2097 | for every accepted text, the printed aliases parse to the same aliases, in whatever order they are printed; models may contain colons |
| `Formats.ParseModelBackendRefs` | internal/dashboard/handler.go:2275-2320 | the loop computes the references or the first error |
| `Formats.ParsedRefsIff` | internal/dashboard/handler.go:2275-2320 | a text is accepted as a list of references exactly if this is not empty and the items ask for it, one by one and in order: different listed backends with positive weights |
| `Formats.RefAdds` | internal/dashboard/handler.go:2289-2314 | which error a bad item gives |
| `Formats.FormatModelBackendRefs` | internal/dashboard/handler.go:2260-2273 | the printed references |
| `Formats.RefItemsOne` | internal/dashboard/handler.go:2260-2273 | how one reference is printed: none without a backend, 1 for a weight that is not positive |
| `Formats.ParsedRefsAreClean` | internal/dashboard/handler.go:2289-2314 | accepted references are distinct, to listed backends, with positive weights |
| `Formats.RefsRoundTrip` | internal/dashboard/handler.go:2260-2320 | for every accepted text, the printed references parse for the same backends to the same references |
| `Text.TrimSpaceCuts` | internal/dashboard/handler.go:2037 | TrimSpace takes white space, and all of it, off both ends |
| `Text.ItemsAre` | internal/dashboard/handler.go:2041-2048 | the items of a text are the non-empty trimmed pieces between its commas |
| `Text.SplitRejoins` | internal/dashboard/handler.go:2042 | the pieces, joined by the separator, are the text |
| `Text.JoinOneMore` | internal/dashboard/handler.go:2096 | a further item comes after a comma and a space |
| `Text.ItemsOfJoin` | internal/dashboard/handler.go:2041-2048 | joining clean items with ", " and splitting gives them back |
| `Text.AtoiOfDigits` | internal/dashboard/handler.go:2305 | Atoi reads what %d prints |
| `Text.AtoiOfSigned` | internal/dashboard/handler.go:2305 | a sign before the digits counts, so a negative weight is read as negative |
| `Text.AtoiFails` | internal/dashboard/handler.go:2305 | a text without digits or with other characters is no number |
| `Text.SortedStrings` | internal/dashboard/handler.go:2091 | the one ascending list of a set |
| `Text.FirstDifference` | internal/dashboard/handler.go:2091 | the order is by the first difference, ascending |
| `Access.ModelAccessibleForUser` | internal/dashboard/handler.go:2347-2355 | denied models are not accessible; others are exactly if the allow list is empty or has them |
| `Access.RemovedContains` | internal/dashboard/handler.go:2366-2375 | removing a value removes it and nothing else |
| `Access.RemovedItemwise` | internal/dashboard/handler.go:2366-2375 | and keeps the order of what stays |
| `Access.ApplyModelAccess` | internal/dashboard/handler.go:1963-1990 | each user's lists are changed as the form asks, sorted, and give access exactly to the users asked for; a failing record stops it with the others untouched |
| `Access.ChangedMeetsForm` | internal/dashboard/handler.go:1965-1981 | access to the model is exactly what the form asks for |
| `Access.ChangedMeetsFormIff` | internal/dashboard/handler.go:1965-1981 | this holds for all users exactly if the model name has no white space around it |
| `Access.OtherModelsUnchanged` | internal/dashboard/handler.go:1965-1981 | access to other models is as before, except where the allow list consisted only of this model |
| `Access.FormIsMet` | internal/dashboard/handler.go:1963-1990 | both for the lists as they are stored |
| `Access.FormDecidesRequests` | internal/models/registry.go:62-81 | for every key and every user: exactly when an unaliased request for the model succeeds after the form, in terms of the other spellings in the user's lists and of whether the key is a normal form of itself |
| `Access.GrantingWorksIff` | internal/models/registry.go:69-81 | granting shows in requests of exactly the users with no other spelling denied, exactly if the key is a normal form of itself |
| `Access.RevokingWorksIff` | internal/models/registry.go:62-67 | revoking shows in requests of every user exactly if the key is a normal form of itself |
| `Access.CleanUsers` | internal/dashboard/handler.go:1850-1869 | a deleted model is taken out of each user's lists, unchanged records are not written, and a failing record stops it |
| `Access.CleanedIs` | internal/dashboard/handler.go:1850-1869 | of either list everything but the model stays |
| `BackendStore.WrittenAndRead` | internal/backends/store.go:25-103 | what is written and read again has usable weight, timeout and path, keeps what was usable up to milliseconds, and has no headers |
| `BackendStore.ReadIsUsable` | internal/backends/store.go:49-64 | a row is read with its url, tag and path, its weight and timeout where usable and the defaults where not, and no headers |
| `BackendStore.RowOfStores` | internal/backends/store.go:74-103 | a row is written with the backend's values, with defaults for what is not usable, and active |
| `BackendStore.Store.LoadActiveBackends` | internal/backends/store.go:25-71 | one backend for each active row and no other, in ascending order of the names, read from its row |
| `BackendStore.Store.UpsertBackend` | internal/backends/store.go:74-103 | the row of the name is replaced, active, and no other |
| `BackendStore.Store.RemoveBackend` | internal/backends/store.go:110-126 | the row is gone; an unknown name is reported |
| `Dashboard.Handler.BackendByName` | internal/dashboard/handler.go:1519-1526 | finds a configured backend of the name if there is one |
| `Dashboard.Handler.UpsertBackendInConfig` | internal/dashboard/handler.go:1528-1536 | replaces the first backend of the name or appends |
| `Dashboard.PutIs` | internal/dashboard/handler.go:1528-1536 | that is what the specification means |
| `Dashboard.PutMembers` | internal/dashboard/handler.go:1528-1536 | entries of other names stay, and the new one is there |
| `Dashboard.Handler.RemoveBackendFromConfig` | internal/dashboard/handler.go:1538-1547 | leaves out the backends of the name |
| `Dashboard.WithoutItemwise` | internal/dashboard/handler.go:1538-1547 | item by item, so the others keep their order |
| `Dashboard.Handler.CreateBackend` | internal/dashboard/handler.go:1444-1461 | when it succeeds; then the backend is stored, managed and configured with the values asked for and nothing of another name has changed; names and catalog agree afterwards exactly unless a bad URL meets a backend table |
| `Dashboard.Handler.UpdateBackend` | internal/dashboard/handler.go:1463-1480 | when it succeeds; then the row, the managed backend (the same object, with its health and turn) and the configured entry have the values asked for and nothing of another name has changed; agreement is kept whatever happens |
| `Dashboard.Handler.ModelsReferencingBackend` | internal/dashboard/handler.go:1504-1517 | the models that refer to the backend, in ascending order |
| `Dashboard.Handler.RemoveBackend` | internal/dashboard/handler.go:1364-1379 | refused while a model of the dashboard's catalog refers to the backend; agreement is kept; the routed catalog stays routable exactly if it does not refer to the backend |
| `Dashboard.KnownWithout` | internal/dashboard/handler.go:1504-1517 | a backend can go exactly if no model refers to it |
| `Dashboard.Handler.CreateModel` | internal/dashboard/handler.go:1813-1821 | adds an entry for a new model only |
| `Dashboard.Handler.UpdateModel` | internal/dashboard/handler.go:1823-1831 | replaces the entry of an existing model only |
| `Dashboard.Handler.DeleteModel` | internal/dashboard/handler.go:1833-1872 | removes an existing model with its price and from all users' lists; when a record fails, the model is gone already |
| `Dashboard.Handler.SetModelPricing` | internal/dashboard/handler.go:1949-1961 | a price of nothing is no entry |
| `Dashboard.Handler.ReloadModelRuntimeFromStore` | internal/dashboard/handler.go:1915-1947 | catalog, prices, tables and routing are the same afterwards |
| `Dashboard.Handler.PersistSave` | internal/dashboard/handler.go:1792-1804 | when model and price have been written, routing is in step again; before that requests are routed as before |
| `Dashboard.Handler.SaveModel` | internal/dashboard/handler.go:1742-1811 | when a save succeeds; a completed one keeps soundness, gives the model exactly the parsed references, its price and the access asked for; a refused one changes nothing; a failed one leaves routing alone |
| `Dashboard.Handler.RemoveModel` | internal/dashboard/handler.go:1721-1740 | when a deletion succeeds; a completed one keeps soundness and takes the model out of prices and users' lists; a failed one leaves routing alone |
| `Dashboard.Administer` | internal/dashboard/handler.go:1337-1811 | over every run of requests whose URLs parse and whose writes succeed, names agree, the catalog refers to no other backends, and routing and table are in step with it; each request is answered as `Dashboard.Answers` says by the names and the catalog that the requests before it have left |
| `Dashboard.Serve` | internal/dashboard/handler.go:1337-1811 | one request: whether it succeeds, the names and the catalog afterwards; a created or updated backend is in force and no other has changed |
| `Dashboard.Reload` | cmd/gateway/main.go:413-443 | with a backend table, or when it fails, a reload keeps every catalog reference known; otherwise it does exactly if the new configuration names all of them; soundness is kept by a successful one exactly if the table has rows or the names are unchanged |
| `Dashboard.Handler.Route` | internal/models/resolver.go:103-109 | in a sound state no request ends in "failed to build backend pool" |
| `Dashboard.UnfinishedEditBreaksRouting` | internal/dashboard/handler.go:1369-1376 | from every sound state with a catalog table in which exactly one model refers to the backend: an accepted edit without that reference that is not persisted, the removal of the backend, and a request that resolves to the model end in the internal error |
| `Dashboard.SomeEditAvoids` | internal/dashboard/handler.go:2275-2320 | whenever another backend is configured under a clean name, there is a form text for such an edit |
| `RuntimePolicy.AcceptsIff` | internal/config/runtime_policy.go:25-74 | a change is accepted exactly if it leaves each restart-only field, whether TLS is on, and what the policy forbids alone |
| `RuntimePolicy.HeadersEqualIff` | internal/config/runtime_policy.go:103-110 | the comparison of headers is equality exactly for headers without empty values |
| `RuntimePolicy.BackendsEqualIsEquality` | internal/config/runtime_policy.go:80-113 | for such headers the comparison of backends is equality |
| `Reloader.AttemptsAreStable` | internal/config/reloader.go:112-130 | the watcher tries only a hash that every poll has read for at least the debounce time |
| `Reloader.NeverTwiceRunning` | internal/config/reloader.go:119-134 | it never tries the same hash twice running |
| `Reloader.StableContentIsTried` | internal/config/reloader.go:112-135 | once changed content has been stable for the debounce time, the next poll leaves attemptedHash equal to it |
| `Reloader.Reloader.constructor` | internal/config/reloader.go:56-72 | a new reloader remembers the restart-only fields of its configuration and stands in for an empty policy |
| `Reloader.Reloader.Reload` | internal/config/reloader.go:143-193 | the configuration changes only if loading, validation and applying all succeed, and keeps the restart-only fields of the one at startup |
| `Reloader.Reloader.PollAndMaybeReload` | internal/config/reloader.go:96-141 | one poll is one step of the watcher; an attempt succeeds exactly if the reload does and then installs the loaded configuration; otherwise the configuration stays |
| `ReloadBackends.TargetNames` | cmd/gateway/main.go:425-427 | the target has every requested name once, with its last configuration |
| `ReloadBackends.ApplyReloadBackends` | cmd/gateway/main.go:413-443 | with an empty table the manager ends with exactly the requested names, configured and enabled; survivors keep identity, health and scheduling state; with rows nothing changes; on a bad URL nothing is removed |
| `ReloadBackends.RemoveOthers` | cmd/gateway/main.go:433-440 | exactly the backends that are not requested are removed |

## Left out

- HTTP handling, proxying, transports, health-check requests, model pulls, templates, themes, cookies and the installer: plumbing over libraries. Health results and discovered catalogs are arbitrary inputs.
- SQL text, SQLite and the analytics queries: tables are maps, a transaction is one atomic step that commits or changes nothing, and the flag `committed` says which.
- JSON, YAML and URL parsing, SHA-256 and TLS certificates: parameters (`decode`, `parses`, the hash type of the reloader, the outcomes given to `Reload`).
- Concurrency of selections: one Select, health result or update is one atomic step. The mutex of a pool does not make it so for two pools that share a backend.
- Machine integers: current weights are unbounded integers; `World.InRange` and `World.RaisedInRange` say for how long they fit a Go int. Converting a number of seconds to int is exact.
- Limiter.LocalLimiter.AllowWith: one call is one atomic step. In the code the bucket is fetched first and then taken from (internal/ratelimit/limiter.go:205-211); a clean-up in between drops the bucket, and the token taken from it is not counted afterwards.
- Floating point: tokens and times of the limiter are reals, without rounding; the conformance theorem is about the exact values.
- Letters beyond ASCII: `NormalizeModelName` lower-cases ASCII letters only. White space is that of Unicode.
- Quoting in error messages: `%q` is written without quotes; the values are compared as they are.
- Backends.BackendPool.Select: the loop is a method of its own (`Sweep`), called once.
- World.RunsStayAccounted: assumes that the routable entries of a pool have positive weights of total at most `limit`. The pools that the gateway builds have positive weights; what is not covered is a pool made by other means, with an entry weight that is not positive for a backend whose own weight becomes positive later.
- Scheduling.Operate: the references of a model have positive weights, as `Resolver.Resolve` gives them; their sum, and the number of backends times the highest configured weight, are at most `limit`, which no part of the code enforces.
- SwrrCycle.ExactCycle: assumes one fixed routable set started from zero, as the bound above -W fails when pools overlap; the general system has the potential of `World.RunsStayAccounted`.
- Delivery.ShutdownDrains: ticks of the timer do not count as progress; Go's select may choose them over the closed stop channel any number of times.
- UsageLogger.UsageLogger.Drain: what the class does is for one goroutine at a time; interleavings are those of the step system.
- Registry.ListingAgreesIff: like the theorems on listed names, for registries without an empty key, which neither discovery nor the dashboard creates.
- Access.ApplyModelAccess: `UpdateUser` trims the user name and refuses a blank one (internal/auth/store.go:267-271), which is left out, so names are taken to be trimmed as `UpdateUser` and `CreateUser` store them; it also keeps the API key hash, which is not part of the model.
- Dashboard.Handler.SaveModel: reading the two prices as numbers is a given result; that the final reading of the tables can fail is left out. Which users' records a failing write leaves unchanged is in `Access.ApplyModelAccess`.
- Dashboard.Administer: the form dispatch is a datatype of requests, and steps whose database writes fail are not part of these runs; what they leave behind is in the contracts of the single steps.
- Dashboard.Handler.CreateBackend: the switch that disables a backend in the dashboard's own state is left out.
- Reloader.Reloader.PollAndMaybeReload: the file is read once for the hash and again for loading; that both readings have the same content is not assumed, and nothing relates the loaded configuration to the hash. A reload that applies backends and then fails on TLS does not undo them.
- ReloadBackends.ApplyReloadBackends: an error of the query for rows is left out.
- The Redis limiter backend is a constant stub. Auth middleware, key lookup, `CalculateCost` and the single pull job are thin or easy.
- `unhealthy_threshold` is configured but not consulted by the health checker, so nothing is claimed about it.
