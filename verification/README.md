# Dafny model of the EvaporChain wallet core

A model, with proofs, of the stateful logic of the EvaporChain wallet: replicated contacts with vector
clocks, hash-chained audit logs, the circuit breaker, the cache manager, the batch executor, energy decay,
the address book with its CSV form, and the recent-commands list. `dafny verify dfyconfig.toml` checks the
whole project.

Objects the wallet updates in place are classes with the same fields, and each of their methods is proved
against a function or relation on values. The laws are then proved about those functions, over every input
and over every sequence of calls. Iteration over a hash map is iteration in an arbitrary order. Clock
readings are parameters. A merge takes another book than its own, as Rust's borrow rules demand.

| files | subject |
|---|---|
| `VectorClocks`, `AddressBookSync` | clocks, one device's book, the two merge loops |
| `MergeLaws` | laws of merges in sequence, for arbitrary books and all policies |
| `SyncNetwork`, `SyncConvergence`, `SyncDivergence`, `SyncOwnWrites` | runs of many devices with stale snapshots |
| `Text`, `AuditLog`, `AuditTrail` | hashed text, both logs, tamper evidence |
| `WallClock`, `CircuitBreaker`, `CircuitHistory`, `CircuitTimes` | the breaker, and its state and times as functions of the call history |
| `CacheManager`, `CacheHistory`, `CacheCalls` | the caches, their agreement with a timed map, and their contents from the calls |
| `BatchRun`, `BatchPolicies`, `BatchExecutor`, `BatchReceipts` | one batch, the four policies, the batch store, what a batch records |
| `Arithmetic`, `Decay`, `DecayBounds` | integer decay, the threshold search, the SDK's forms against it |
| `Csv`, `Contacts`, `ContactsRoundTrip`, `CommandPalette` | name index, CSV round trip, recent list |

## What the proofs found

- **A merge can drop the local clock** (`wallet/src/addressbook_sync.rs:241-250` and `264-269`). When a
  concurrent remote copy is taken, it is inserted with its own clock, and the later loop joins that clock
  with itself. `MergedClockIsJoinIff` gives the exact condition under which the merged clock is the least
  upper bound. As a consequence a device can lose its own clock entry and count the same number twice.
  KeepNewer with good stamps therefore does not converge: `KeepNewerAloneDoesNotConverge` builds the run.
  The guard "a merge does not lower the merging device's own entry" is exact. Guarded runs converge
  (`StrongConvergence`), and after the first unguarded merge some guarded continuation splits
  (`ConvergenceGuaranteedIff`), for good (`SplitIsPermanent`). The causal bound on clocks has the same exact
  guard, for all books (`MergeKeepsCausalBoundIff`) and for the live ones (`LiveBoundGuaranteedIff`).
- **Decay is piecewise linear** (`crates/evaporchain-types/src/lib.rs:2094-2112`), not the exponential that
  `wallet/src/assets.rs:107` states. Energy lasts exactly one half-life per bit. The SDK's estimate is at
  most one half-life shorter, and `EstimateAgainstChain` says when it is equal and when the gap is full. At
  no epoch does the SDK show more energy than the chain has (`SdkNeverAboveChain`).
- **The breaker's timeout is cast to i64** (`wallet/src/circuit_breaker.rs:260`). From 2^63 seconds on, an
  open circuit lets requests through at once (`GateOpensAtOnceIff`).
- **Audit log indices stick at the cap** (`wallet/src/audit_log.rs:228`): `AppendsKeepChain` gives the index
  of every entry. A loaded log can stop verifying after an append: `LoadedLogStopsVerifying` gives
  one, and `AppendKeepsChainIff` says exactly when.
- **What the hashes cover** (`wallet/src/audit_log.rs:157-170`, `wallet/src/audit_trail.rs:134`). The log's hash
  covers every field, but a bar inside a field can belong to its neighbour (`BarsBlurFields`); without bars the
  text determines the entry (`TextDeterminesEntry`). The trail's hash leaves out id, severity, actor, target and
  details, so `UnhashedEditPasses`.
- **CSV notes with quotes never read back** (`wallet/src/contacts.rs:184-186` and `221`):
  `LineReadsBackIff` gives the exact set of fields that do, and `RoundTripIff` the exact set of books.

Hashing is a parameter `digest`. The tamper-evidence lemmas assume that it yields 64 hexadecimal digits and
has no collision among the texts of the two logs compared. No function to 64 digits is free of collisions
on all texts, so nothing stronger is assumed.

## Model

| member | source | states |
|---|---|---|
| VectorClocks.VectorClock.Increment | wallet/src/addressbook_sync.rs:38-41 | one component grows by one, an absent one counting as 0, and the others stay |
| VectorClocks.VectorClock.Join | wallet/src/addressbook_sync.rs:48-53 | every component is the larger of the two, absent ones counting as 0 |
| VectorClocks.JoinIsLeastUpperBound | wallet/src/addressbook_sync.rs:48-63 | merging clocks gives the least upper bound of the domination order |
| VectorClocks.MergeClocks | wallet/src/addressbook_sync.rs:48-53 | the entry loop, in any order, computes that join |
| VectorClocks.CheckDominates | wallet/src/addressbook_sync.rs:56-63 | the early-exit loop decides whether every component is at least the other's |
| AddressBookSync.SyncableAddressBook.constructor | wallet/src/addressbook_sync.rs:152-159 | a new book is empty and never synced |
| AddressBookSync.SyncableAddressBook.Add | wallet/src/addressbook_sync.rs:161-173 | fails exactly on a known address, tombstones included; otherwise adds one live contact with the given name, stamp, author and one own write, and nothing else |
| AddressBookSync.SyncableAddressBook.Update | wallet/src/addressbook_sync.rs:175-182 | fails exactly on an unknown address; otherwise that contact has the new name, stamp, author and one more own write, keeps the rest, tombstone included, and nothing else changes |
| AddressBookSync.SyncableAddressBook.Delete | wallet/src/addressbook_sync.rs:184-191 | fails exactly on an unknown address; otherwise that contact is deleted, with new stamp, author and one more own write, keeps its name and the rest, and nothing else changes |
| AddressBookSync.SyncableAddressBook.Merge | wallet/src/addressbook_sync.rs:206-275 | both loops together give the pointwise merge of the old books; the counts and the list of conflicts are exactly those of the contacts treated that way |
| AddressBookSync.CompareCopies | wallet/src/addressbook_sync.rs:230-259 | which branch two copies take: keep, take the remote one, or report a conflict |
| AddressBookSync.PickCopy | wallet/src/addressbook_sync.rs:219-261 | one turn of the first merge loop: which copy stays and which counter moves |
| AddressBookSync.PickCopies | wallet/src/addressbook_sync.rs:218-262 | the first merge loop is a fold over the remote contacts in the order it meets them |
| AddressBookSync.PickAllMeaning | wallet/src/addressbook_sync.rs:218-262 | whatever the order, the fold leaves the picked copy of every remote contact and all other contacts alone |
| AddressBookSync.TallyAllMeaning | wallet/src/addressbook_sync.rs:211-262 | whatever the order, the counters are the numbers of contacts added, deleted and updated, and each conflict is listed once |
| AddressBookSync.JoinClocks | wallet/src/addressbook_sync.rs:264-269 | the second loop joins the remote clock into every surviving copy of a remote contact |
| AddressBookSync.SecondLoopJoins | wallet/src/addressbook_sync.rs:218-269 | the two loops compose to the pointwise merge |
| MergeLaws.MergedClockIsJoinIff | wallet/src/addressbook_sync.rs:229-269 | the merged clock is the least upper bound of both exactly when no concurrent remote copy is taken; a taken copy comes unchanged |
| MergeLaws.ReportIsOfBooks | wallet/src/addressbook_sync.rs:211-262 | the counts are read off the books before and after: contacts brought in alive, contacts brought in as tombstones, and copies given up for the remote one |
| MergeLaws.ConflictsAre | wallet/src/addressbook_sync.rs:251-257 | the conflicts are exactly the contacts of both books with concurrent clocks, under Manual, each with its two copies |
| MergeLaws.MergeTwice | wallet/src/addressbook_sync.rs:206-275 | merging the same remote again, under any policy, gives the same book and reports nothing |
| MergeLaws.ExchangeAgreesIff | wallet/src/addressbook_sync.rs:206-275 | A merges B, then B merges the result: the books agree in content and clocks exactly when copies with equal clocks had equal content, for any two policies |
| MergeLaws.CrossingMerges | wallet/src/addressbook_sync.rs:239-258 | what simultaneous merges of concurrent copies leave at both devices under each policy |
| MergeLaws.DeltaIsExact | wallet/src/addressbook_sync.rs:206-293 | merging only the changes since the local clocks gives the contents and clocks of merging the whole remote book, and the same report, under any policy |
| MergeLaws.DeltaIsMinimal | wallet/src/addressbook_sync.rs:283-293 | the changes since the local clocks are exactly the contacts that merging the remote book would add or change |
| SyncNetwork.MergeOwnEntry | wallet/src/addressbook_sync.rs:229-269 | a merge never raises the merging device's own entry, and keeps it exactly under the guard |
| SyncNetwork.MergeKeepsCausalBoundIff | wallet/src/addressbook_sync.rs:206-275 | a merge of any snapshot under any policy keeps "no entry exceeds its owner's" exactly when it lowers no own entry |
| SyncNetwork.CausalBoundInRuns | wallet/src/addressbook_sync.rs:161-275 | the causal bound holds after every run of writes and guarded merges, stale snapshots included |
| SyncNetwork.LiveBoundGuaranteedIff | wallet/src/addressbook_sync.rs:206-275 | after one more merge, every continuation of writes and guarded merges keeps each live clock entry within its owner's live entry exactly when that merge met the guard |
| SyncNetwork.BooksWellKeyed | wallet/src/addressbook_sync.rs:161-275 | in every run, under any policies, every book is keyed by its contacts' addresses |
| SyncNetwork.DeltaSyncInRuns | wallet/src/addressbook_sync.rs:206-293 | so delta sync is exact for every remote book of every run, under any policy |
| SyncNetwork.LocalPoliciesKeepOwn | wallet/src/addressbook_sync.rs:240-257 | KeepLocal and Manual merges always meet the guard |
| SyncNetwork.ContactsNeverLost | wallet/src/addressbook_sync.rs:161-275 | no run loses a contact at any device |
| SyncNetwork.TombstonesStay | wallet/src/addressbook_sync.rs:101-191 | in every run a deleted contact stays deleted at a device until that device merges |
| SyncOwnWrites.DeletedStaysDeleted | wallet/src/addressbook_sync.rs:108-191 | a contact a device deletes is deleted there in every run until the device merges |
| SyncOwnWrites.GivenNameStays | wallet/src/addressbook_sync.rs:86-182 | a name a device gives, by adding or renaming, stays there in every run until the device renames again or merges |
| SyncOwnWrites.OwnBookFromActions | wallet/src/addressbook_sync.rs:86-191 | in every run in which a device does not merge, its book follows from its own actions: which addresses, the last name given, the last stamp, deleted or not, and a clock that counts the writes that took effect |
| SyncConvergence.MergeKeepsLatest | wallet/src/addressbook_sync.rs:229-269 | a KeepNewer merge of two copies that hold the latest write of their histories gives such a copy |
| SyncConvergence.StepKeepsHistoric | wallet/src/addressbook_sync.rs:161-275 | every guarded step keeps the history invariant |
| SyncConvergence.StrongConvergence | wallet/src/addressbook_sync.rs:86-275 | after every guarded KeepNewer run whose writes have stamps distinct per contact and later than the copy they change, copies with equal clocks have equal content and hold the latest write of that clock's causal history |
| SyncDivergence.LostEntrySplits | wallet/src/addressbook_sync.rs:245-250 | any merge that lowers an own entry has a rule-abiding continuation that ends with equal clocks over different content |
| SyncDivergence.SplitIsPermanent | wallet/src/addressbook_sync.rs:206-275 | no sequence of merges between two split books, under any policies, ends the split |
| SyncDivergence.ConvergenceGuaranteedIff | wallet/src/addressbook_sync.rs:206-275 | after any guarded run and one more KeepNewer merge, every guarded continuation converges exactly when that merge met the guard |
| SyncDivergence.KeepNewerAloneDoesNotConverge | wallet/src/addressbook_sync.rs:245-269 | a concrete start of three steps leads to a split |
| AuditLogs.AuditLog.constructor | wallet/src/audit_log.rs:189-201 | a new log is empty and has the given cap |
| AuditLogs.AuditLog.Append | wallet/src/audit_log.rs:220-256 | pushes the linked, hashed entry, drops the oldest when over the cap, and returns the new one |
| AuditLogs.AuditLog.VerifyChain | wallet/src/audit_log.rs:297-322 | on any entries: Ok exactly for an intact chain, else the least position whose self-hash or link check fails |
| AuditLogs.AppendKeepsChainIff | wallet/src/audit_log.rs:220-256 | for any verifying log, loaded ones included, appending keeps it verifying except when eviction promotes a non-genesis entry of index 0 |
| AuditLogs.LoadedLogStopsVerifying | wallet/src/audit_log.rs:220-322 | a concrete two-entry log that verifies, and does not after any append at cap 2 |
| AuditLogs.AppendHolds | wallet/src/audit_log.rs:228-253 | an append keeps the last drafts up to the cap and gives the new entry its capped index |
| AuditLogs.AppendsKeepChain | wallet/src/audit_log.rs:220-322 | after every sequence of appends, capped or not, the chain verifies and holds the last drafts with indices that stick at the cap |
| AuditLogs.TextDetermines | wallet/src/audit_log.rs:157-170 | the hashed text determines the index, and the previous hash when it has a digest's length |
| AuditLogs.EditShowsInText | wallet/src/audit_log.rs:157-170 | two entries that differ in one of index, time, action, severity, account, description, metadata or previous hash have different hashed texts |
| AuditLogs.EditIsReported | wallet/src/audit_log.rs:297-322 | changing any one field of any entry of an intact log makes that entry the first one to fail, when the digest separates the two texts |
| AuditLogs.TextDeterminesEntry | wallet/src/audit_log.rs:157-170 | without bars in the fields before the metadata the text determines the whole entry |
| AuditLogs.BarsBlurFields | wallet/src/audit_log.rs:157-170 | with bars it does not: two entries with the same text |
| AuditLogs.TextLayout | wallet/src/audit_log.rs:157-170 | the eight fields in their order with bars between |
| AuditLogs.TailsAgree | wallet/src/audit_log.rs:157-322 | two verifying chains with the same last hash hash the same text at every position from the end, as far as the shorter goes |
| AuditLogs.SameHeadSameLength | wallet/src/audit_log.rs:157-322 | when each last index is its position, they also have the same length and hash the same texts throughout |
| AuditLogs.TailEntriesAgree | wallet/src/audit_log.rs:157-322 | without such bars, two verifying chains with the same last hash hold the same entries, counted from the end |
| AuditTrails.AuditTrail.constructor | wallet/src/audit_trail.rs:112-114 | a new trail is empty and valid |
| AuditTrails.AuditTrail.Record | wallet/src/audit_trail.rs:117-155 | appends exactly one entry with the given data and a new id; the chain verifies and sequence numbers stay positions |
| AuditTrails.AuditTrail.VerifyChain | wallet/src/audit_trail.rs:205-228 | on any entries: Valid exactly for an intact chain, else the least position whose link or hash check fails |
| AuditTrails.IdsDistinct | wallet/src/audit_trail.rs:137 | no two recorded entries share an id |
| AuditTrails.InputDetermines | wallet/src/audit_trail.rs:134 | the hashed text determines sequence number and previous hash, when that hash has no colon |
| AuditTrails.SameHeadSameTrail | wallet/src/audit_trail.rs:205-228 | two verifying trails with the same last hash have the same length and the same hashed text, sequence numbers and hashes throughout |
| AuditTrails.EditIsReported | wallet/src/audit_trail.rs:205-228 | changing the sequence number, action, time, previous hash or hash of an entry of an intact trail makes it the first one to fail |
| AuditTrails.UnhashedEditPasses | wallet/src/audit_trail.rs:134-135 | changing only id, severity, actor, target or details never does, as they are not hashed |
| AuditTrails.SameHeadSameActions | wallet/src/audit_trail.rs:134-228 | rendered actions without a colon agree as well, and so do the times |
| CircuitBreaker.CircuitBreakerManager.constructor | wallet/src/circuit_breaker.rs:119-121 | a new manager has no circuit and no event |
| CircuitBreaker.CircuitBreakerManager.RegisterCircuit | wallet/src/circuit_breaker.rs:125-152 | adds one closed circuit, or fails on a known id and changes nothing |
| CircuitBreaker.CircuitBreakerManager.UnregisterCircuit | wallet/src/circuit_breaker.rs:154-158 | removes and returns the circuit, keeps the events, or fails on an unknown id |
| CircuitBreaker.CircuitBreakerManager.RecordSuccess | wallet/src/circuit_breaker.rs:162-198 | steps the one circuit by a success and logs its transition, if any |
| CircuitBreaker.CircuitBreakerManager.RecordFailure | wallet/src/circuit_breaker.rs:200-243 | steps the one circuit by a failure and logs its transition, if any |
| CircuitBreaker.CircuitBreakerManager.CanExecute | wallet/src/circuit_breaker.rs:247-282 | answers true unless the circuit is open and not timed out; a timed-out circuit becomes half-open |
| CircuitBreaker.CircuitBreakerManager.ForceOpenCircuit | wallet/src/circuit_breaker.rs:286-305 | opens the circuit from any state and logs a forced edge |
| CircuitBreaker.CircuitBreakerManager.ForceCloseCircuit | wallet/src/circuit_breaker.rs:307-329 | closes and resets the circuit from any state and logs a forced edge |
| CircuitHistory.ClosedCountsFailures | wallet/src/circuit_breaker.rs:173-226 | after any calls, a closed circuit's failure count is the number of failures since its last success or forced closing, below the threshold |
| CircuitHistory.TripsIff | wallet/src/circuit_breaker.rs:212-226 | a closed circuit opens by itself exactly when that run of failures reaches the threshold, 1 at least |
| CircuitHistory.HalfOpenCountsSuccesses | wallet/src/circuit_breaker.rs:174-191 | a half-open circuit's success count is the number of successes since it became half-open, with no failure since |
| CircuitHistory.ClosesIff | wallet/src/circuit_breaker.rs:174-191 | a half-open circuit closes by itself exactly on the success that completes the threshold, 1 at least |
| CircuitHistory.CountersBounded | wallet/src/circuit_breaker.rs:162-243 | the totals count the calls, and the 32-bit counters never exceed their thresholds, 1 at least |
| CircuitHistory.PushedShape | wallet/src/circuit_breaker.rs:162-329 | a call that is not forced and keeps the state logs nothing; any other logs one event of its kind, with its time, for the legal edge it takes |
| CircuitHistory.EventsArePath | wallet/src/circuit_breaker.rs:162-329 | a circuit's events lead without a gap from Closed to its present state along legal edges |
| CircuitHistory.OpenedAtKnown | wallet/src/circuit_breaker.rs:162-329 | a circuit is closed exactly when it has no opening time |
| CircuitHistory.GateNeedsTimeout | wallet/src/circuit_breaker.rs:200-282 | after an opening, any calls short of a forced closing and any clock readings, the gate answers true only if some gate call, this one included, read a time at least the timeout after an opening before it |
| CircuitHistory.GateHoldsUntilTimeout | wallet/src/circuit_breaker.rs:247-282 | so when the readings lie between the opening and the question, the gate does not answer true before a timeout below 2^63 seconds has passed |
| CircuitHistory.GateOpensAtOnceIff | wallet/src/circuit_breaker.rs:260 | at the instant of opening the gate answers true exactly for timeout 0 or one that does not fit an i64 |
| CircuitHistory.CircuitsAreIndependent | wallet/src/circuit_breaker.rs:125-329 | in every run on many circuits, a circuit and its events since registration are what its own calls alone give |
| CircuitHistory.RegisteredCounters | wallet/src/circuit_breaker.rs:125-282 | in every run the counters of a registered circuit are those functions of its calls since registration |
| CircuitHistory.RegisteredEventsArePath | wallet/src/circuit_breaker.rs:125-329 | in every run the logged events of a registered circuit are such a path to its present state |
| CircuitTimes.OpenedByLastOpening | wallet/src/circuit_breaker.rs:200-305 | for any calls, an open or half-open circuit carries the time of the call that last opened it, by a trip, a failure while half-open, or force |
| CircuitTimes.GateAnswersIff | wallet/src/circuit_breaker.rs:247-282 | for any calls, the gate of an open circuit answers true exactly when the timeout has passed since that call |
| CircuitTimes.OpenedGateNeedsTimeout | wallet/src/circuit_breaker.rs:200-282 | after any call that opened the circuit and any later calls short of a forced closing, a true answer needs a gate reading a timeout after an opening |
| CircuitTimes.OpenLeavesIff | wallet/src/circuit_breaker.rs:247-329 | an open circuit becomes half-open exactly on a gate call after the timeout and closes exactly by force |
| CircuitTimes.HalfOpenReopensIff | wallet/src/circuit_breaker.rs:227-305 | a half-open circuit opens again exactly on a failure or by force |
| CircuitTimes.StampsFromCalls | wallet/src/circuit_breaker.rs:162-243 | the stamps of the last failure and success are those calls' times |
| CircuitTimes.HalfOpenAtFromCalls | wallet/src/circuit_breaker.rs:260-275 | a half-open circuit carries the time of the gate call that made it half-open |
| CircuitTimes.FailureCountFromCalls | wallet/src/circuit_breaker.rs:162-329 | in every state the failure count is the number of failures received while closed since the last reset |
| CircuitTimes.SuccessCountFromCalls | wallet/src/circuit_breaker.rs:162-329 | in every state the success count is the number of successes received while half-open since the last reset |
| CircuitTimes.ClosedIsReset | wallet/src/circuit_breaker.rs:162-329 | a closed circuit carries no opening or half-opening time and no successes |
| CircuitTimes.RegisteredGateAnswersIff | wallet/src/circuit_breaker.rs:125-282 | in every run on many circuits the gate is decided by the last of the circuit's own calls that opened it |
| CacheManager.FindExpired | wallet/src/cache_manager.rs:343-348 | finds an expired entry exactly when there is one |
| CacheManager.FindFirst | wallet/src/cache_manager.rs:320-357 | finds an entry that is minimal under the policy |
| CacheManager.DoEvict | wallet/src/cache_manager.rs:315-364 | removes exactly one entry, minimal under the policy or expired first under Ttl, unless the cache is empty |
| CacheManager.CacheManager.constructor | wallet/src/cache_manager.rs:98-100 | a new manager has no cache and zero counters |
| CacheManager.CacheManager.CreateCache | wallet/src/cache_manager.rs:102-110 | adds one empty cache, or fails on a known id and changes nothing |
| CacheManager.CacheManager.RemoveCache | wallet/src/cache_manager.rs:112-119 | removes config and entries of one cache, or fails on an unknown id and changes nothing |
| CacheManager.CacheManager.PutValue | wallet/src/cache_manager.rs:121-167 | inserts the fresh entry, evicting an allowed victim first exactly when a new key meets a full cache |
| CacheManager.CacheManager.GetValue | wallet/src/cache_manager.rs:169-206 | answers the unexpired entry's value and counts the read, drops an expired entry, counts hit or miss |
| CacheManager.CacheManager.InvalidateKey | wallet/src/cache_manager.rs:208-217 | removes that key of that cache only, with both error cases |
| CacheManager.CacheManager.InvalidateWhole | wallet/src/cache_manager.rs:219-226 | empties that cache only |
| CacheManager.CacheManager.DropExpired | wallet/src/cache_manager.rs:228-240 | the loop keeps exactly the unexpired entries of every cache |
| CacheHistory.RunsKeepInv | wallet/src/cache_manager.rs:102-240 | in every run configs and entries have the same ids, no cache exceeds max(max_entries, 1), and every held entry equals the unbounded map's, read counts and times included |
| CacheHistory.HitsAreCurrent | wallet/src/cache_manager.rs:121-240 | in every run a value answered is that of the latest put to the key, not since invalidated and not expired |
| CacheHistory.RoomyCacheIsTimedMap | wallet/src/cache_manager.rs:121-240 | a cache never given more distinct keys than its room answers exactly as the timed map, however the clock jumped, to a question not asked before the latest reading |
| CacheHistory.SteppedBackDiffers | wallet/src/cache_manager.rs:121-206 | a concrete run where a question asked before the latest reading is answered differently |
| CacheHistory.PutIsVisibleUntilExpiry | wallet/src/cache_manager.rs:148-196 | a value is answered until the put's own time to live, else the default one, has run out |
| CacheCalls.HeldEntriesFromCalls | wallet/src/cache_manager.rs:121-240 | in every run a held entry is the latest put to its key, not removed since, with its time, layer and expiry, as many reads as there were since, and the time of the last of them |
| CacheCalls.HitsFromCalls | wallet/src/cache_manager.rs:169-206 | in every run a value answered is that of the latest put, which has not expired and which no call has removed |
| CacheCalls.ConfigsFromCalls | wallet/src/cache_manager.rs:102-119 | in every run the configurations are those the caches were created with |
| CacheCalls.EvictedVictim | wallet/src/cache_manager.rs:142-364 | in every run a put of a new key into a full cache evicts one held key: under Lru never read or read longest ago, under Lfu read least since its put, under Fifo put first, under Ttl an expired one if there is any |
| CacheCalls.CountersFromCalls | wallet/src/cache_manager.rs:121-206 | hits, misses and evictions count the reads answered with and without a value and the puts that met a full cache |
| BatchRun.SortIsStable | wallet/src/batch_executor.rs:263 | the sort is an ascending permutation that keeps the sequence of equal orders |
| BatchRun.RollBack | wallet/src/batch_executor.rs:316-322 | the inner loop turns the earlier successes into skips and counts them |
| BatchRun.TakeTurn | wallet/src/batch_executor.rs:275-328 | one turn of the execution loop on all its variables |
| BatchRun.RunAll | wallet/src/batch_executor.rs:265-328 | the execution loop is the fold of that turn |
| BatchPolicies.FinishedCounts | wallet/src/batch_executor.rs:265-333 | no transaction is pending at the end, each counter is the actual number, and they sum to the batch size |
| BatchPolicies.ContinuingShape | wallet/src/batch_executor.rs:282-327 | under None and ContinueOnFailure exactly those are skipped whose direct dependency failed at an earlier position; the rest succeed or fail by amount |
| BatchPolicies.StopOnFailureShape | wallet/src/batch_executor.rs:276-313 | successes, then at most one failure, then only skips |
| BatchPolicies.RollbackAllShape | wallet/src/batch_executor.rs:276-324 | all transactions succeed, or none does |
| BatchPolicies.GasPaid | wallet/src/batch_executor.rs:297-303 | gas is 21000 per transaction that ran successfully, rolled back or not, within the estimate |
| BatchPolicies.NoFailureIff | wallet/src/batch_executor.rs:297-308 | under every policy a batch has no failure exactly when every amount is positive |
| BatchExecutor.CheckBatch | wallet/src/batch_executor.rs:220-239 | succeeds with all warnings exactly when every dependency is in the batch, else names the first missing one |
| BatchExecutor.ExecutedTransactions | wallet/src/batch_executor.rs:263-328 | the executed transactions are the given ones, sorted by order, with new outcomes |
| BatchExecutor.ExecutedCounts | wallet/src/batch_executor.rs:330-353 | the reported counts are the actual numbers, sum to the size, and gas is within the estimate |
| BatchExecutor.ExecutedStatus | wallet/src/batch_executor.rs:335-343 | Completed exactly when every amount is positive; RollbackAll otherwise ends RolledBack without a success; none can execute again |
| BatchExecutor.CleanBatchCompletes | wallet/src/batch_executor.rs:211-343 | a batch that validates without warning completes, all successful, with exactly the estimated gas, under every policy |
| BatchReceipts.ContinuingReceipts | wallet/src/batch_executor.rs:275-328 | under the continuing policies a success carries hash and gas, a failure its reason, a skipped transaction the dependency it was skipped for, and nothing else changes |
| BatchReceipts.StoppingReceipts | wallet/src/batch_executor.rs:275-328 | under the stopping policies the same up to the first failure; rolled back transactions keep hash and gas; later ones only become skipped |
| BatchReceipts.FinalStatusIff | wallet/src/batch_executor.rs:335-343 | Completed, PartialFailure, RolledBack and Failed, each exactly by the failures and successes among the executed transactions and the policy |
| BatchReceipts.ExecutedRecord | wallet/src/batch_executor.rs:248-357 | the job gets the two times, the transactions, the status and the totals that the result repeats; the rest of it stays |
| BatchReceipts.WarningsAre | wallet/src/batch_executor.rs:220-239 | the warnings are exactly one text per transaction without an amount, by its id, and one for an empty batch |
| BatchExecutor.BatchExecutor.constructor | wallet/src/batch_executor.rs:129-131 | a new store is empty |
| BatchExecutor.BatchExecutor.CreateBatch | wallet/src/batch_executor.rs:134-151 | the new id was not in use, so no batch is ever overwritten |
| BatchExecutor.BatchExecutor.AddTx | wallet/src/batch_executor.rs:154-164 | appends to a draft, with both error cases |
| BatchExecutor.BatchExecutor.RemoveTx | wallet/src/batch_executor.rs:167-185 | removes the first transaction with the id from a draft, with all error cases |
| BatchExecutor.BatchExecutor.ReorderTx | wallet/src/batch_executor.rs:188-208 | changes the order of the first transaction with the id in a draft, with all error cases |
| BatchExecutor.BatchExecutor.ValidateBatch | wallet/src/batch_executor.rs:211-245 | moves a draft to Validating exactly when every dependency is known, else names the first transaction with a missing one |
| BatchExecutor.BatchExecutor.ExecuteBatch | wallet/src/batch_executor.rs:248-357 | executes a draft or validated batch once and appends its only result; over any calls each id has at most one result |
| BatchExecutor.BatchExecutor.RollbackBatch | wallet/src/batch_executor.rs:360-370 | marks every transaction of that batch skipped and the batch rolled back, and changes nothing else of it or of any other |
| BatchExecutor.BatchExecutor.EstimateGas | wallet/src/batch_executor.rs:396-402 | 21000 per transaction, never below what execution charges, or not found |
| Decay.EnergyBetween | crates/evaporchain-types/src/lib.rs:2094-2112 | at every epoch within 64 half-lives the loss since the last half-life is the linear share of half the energy, rounded down |
| Decay.EnergyNonIncreasing | crates/evaporchain-types/src/lib.rs:2094-2112 | energy never rises from one epoch to a later one |
| Decay.GoneIff | crates/evaporchain-types/src/lib.rs:2094-2112 | energy is zero exactly from bit-length times half-life on |
| Decay.PredictEnergy | wallet/src/assets.rs:108-113 | the prediction is what the chain computes, for all inputs |
| Decay.NothingToDecay | wallet-sdk/src/utils.ts:76-98 | both SDK forms give 0 without energy or half-life |
| Decay.EpochsUntilThreshold | wallet/src/assets.rs:118-137 | Some is the least epoch at or below the threshold; None exactly for half-life 0, energy not above the threshold, or when no u64 epoch reaches it |
| Decay.EpochsUntilZero | wallet/src/assets.rs:140-142 | the search equals the closed form bit-length times half-life |
| Decay.CalculateDecayIsFloor | wallet-sdk/src/utils.ts:76-79 | the SDK's decay is the floor of the exact exponential |
| Decay.EstimateIsFirstGoneIff | wallet-sdk/src/utils.ts:95-98 | the estimate is the first epoch without energy under the SDK's decay, one too small exactly when 2^estimate = energy^halfLife |
| Decay.EstimateAgainstChain | wallet-sdk/src/utils.ts:95-98 | the estimate is at most the chain's lifetime and at most one half-life short; both extremes characterised |
| Decay.AgreeAtHalfLives | wallet-sdk/src/utils.ts:76-79 | after whole half-lives chain and SDK give the same energy |
| DecayBounds.SdkNeverAboveChain | wallet-sdk/src/utils.ts:76-79 | at every epoch, for every energy and half-life, the SDK's value is at most the chain's |
| Csv.NoteReadsBackIff | wallet/src/contacts.rs:182-221 | a note survives escaping and parsing exactly when it has no quote and a comma or clean edges |
| Csv.LineReadsBackIff | wallet/src/contacts.rs:181-225 | a printed line parses to its fields exactly when they are clean: name and address not empty, without comma and without space at the edges, and a note that reads back |
| Csv.LineReadAsFields | wallet/src/contacts.rs:209-225 | every line is read as its text up to the first comma, up to the second, and the rest, each trimmed, or skipped when name or address is blank |
| Csv.TwoFieldLine | wallet/src/contacts.rs:214-221 | a line of two fields gives a contact without a note exactly when both are clean |
| Contacts.RebuildIndex | wallet/src/contacts.rs:64-69 | the index holds every name's last position |
| Contacts.AddressBook.constructor | wallet/src/contacts.rs:55-61 | a new book is empty and its index agrees with search |
| Contacts.AddressBook.Add | wallet/src/contacts.rs:87-108 | appends unless the name exists; names stay unique and the index equal to linear search |
| Contacts.AddressBook.Remove | wallet/src/contacts.rs:111-118 | removes that name only; the rebuilt index equals linear search |
| Contacts.WithoutKeepsOrder | wallet/src/contacts.rs:111-118 | removing a name takes out its position and keeps the others in order |
| Contacts.AddressBook.GetByName | wallet/src/contacts.rs:121-123 | answers what linear search answers |
| Contacts.AddressBook.Update | wallet/src/contacts.rs:159-176 | changes address and note of that contact only; the index stays right |
| Contacts.AddressBook.ToCsv | wallet/src/contacts.rs:179-192 | the loop writes the header and one line per contact in order |
| Contacts.AddressBook.ImportCsv | wallet/src/contacts.rs:202-236 | the loop imports the lines that parse and whose name is new, and counts them |
| ContactsRoundTrip.RoundTripIff | wallet/src/contacts.rs:179-236 | importing the exported text into an empty book restores names, addresses, notes and order exactly when every contact's fields are clean and free of newlines |
| ContactsRoundTrip.ImportOnlyAppends | wallet/src/contacts.rs:202-236 | importing any text keeps what the book holds, in place, and only appends contacts read from its lines |
| ContactsRoundTrip.ImportTakesEveryName | wallet/src/contacts.rs:202-236 | afterwards the book has the name of every line that is no header and parses |
| CommandPalette.CommandPalette.constructor | wallet/src/command_palette.rs:96-105 | a new palette is empty with room for 50 |
| CommandPalette.CommandPalette.RegisterCommand | wallet/src/command_palette.rs:112-118 | adds one command, or fails on a known id; the recent list stays |
| CommandPalette.CommandPalette.RemoveCommand | wallet/src/command_palette.rs:120-124 | removes one command; it stays in the recent list |
| CommandPalette.CommandPalette.RecordUse | wallet/src/command_palette.rs:154-169 | counts the use, moves the id to the front and truncates, or fails on an unknown id and changes nothing |
| CommandPalette.RecentIsRecency | wallet/src/command_palette.rs:154-169 | after any uses the list is the reversed history without repeats, cut once to the maximum |

## Left out

- Files, JSON, wall-clock calls and timestamp formatting: time is a parameter, read once per call. Timestamps compared as text are compared as times here: all carry the offset +00:00, and `+` sorts before `.` and the digits, so the two orders agree for years 0 to 9999.
- 64-bit wrap-around of vector clock counters, request totals, hit counters and sequence numbers: they are natural numbers here.
- Panics of date arithmetic for durations chrono cannot represent (`wallet/src/cache_manager.rs:151`).
- Rendering of action enums and of hash-map metadata: entries hold the rendered text; the order a hash map renders in is not modelled.
- `size_bytes`, `backoff`, `max_retries`, `duration_ms`, command descriptions and tags: stored and never read by the modelled logic.
- `get_batch_mut` and public fields (`wallet/src/batch_executor.rs:376-378`): a caller that edits a job directly can make it executable again.
- Decay.CalculateDecayIsFloor: the SDK uses floating point; the model is its formula in exact arithmetic, so rounding of `Math.pow` and `Math.log2` is not captured.
- Decay.EstimateIsFirstGoneIff: exact arithmetic in place of the SDK's floating point, as above.
- Decay.EstimateAgainstChain: exact arithmetic in place of the SDK's floating point, as above.
- Decay.AgreeAtHalfLives: exact arithmetic in place of the SDK's floating point, as above.
- DecayBounds.SdkNeverAboveChain: exact arithmetic in place of the SDK's floating point, as above.
- CircuitHistory.GateHoldsUntilTimeout: for clock readings between the opening and the question only; CircuitHistory.GateNeedsTimeout has no such condition.
- CacheHistory.RoomyCacheIsTimedMap: for questions not asked before the latest reading; CacheHistory.SteppedBackDiffers shows that the condition is needed.
- Search, listing, filtering and statistics helpers of the modelled files: they would add only easy members.
- Accounts, backup, RPC, bridge, anomaly detection, auto-refresh, and the chain's consensus, state and VM crates.
