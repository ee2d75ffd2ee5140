# A Dafny model of the gateway's self-contained cores

The gateway (a Go service in front of many language-model providers) has a number of
components whose correctness does not depend on the providers. This project models them in
Dafny and proves what they keep over whole runs.

* **Rate limiting.** `SlidingWindow` says what the in-memory limiter does to a map of
  buckets and reservations; `RequestQueue`, `QueueTable` and `RateLimiter` are the linked
  queues, the table of them and the limiter with its LRU list as objects, each operation
  proved to do that. The limit per window holds in every run exactly when the window fits
  into the key expiration.
* **Channel tests.** `WorkerPool` is the pool of test workers as a step system over its
  goroutines; it cannot deadlock, stops under every schedule, and its summary does not
  depend on the schedule.
* **Multi-key channels.** `MultiKeyChannel` and `MultiKeyManager`: key records kept in maps
  by position, re-indexed on deletion, and a channel status that follows the keys.
* **App-plugin installations.** `AppInstallation` and `AppInstallationStore`: overlapping
  patches under optimistic concurrency.
* **Upstream models.** `UpstreamModels` and `UpstreamSync`: detecting and applying
  differences between a channel's models and its upstream's.
* **Request bodies.** `ByteStreams`, `BodyStorage` and `StorageObjects`: bodies in memory and
  in files, with the readers opened on them, as one abstract object, and the counters
  shared by all of them.
* **Small parsers and conversions.** `OggOpus` (the length of an Opus stream), `QuotaMath`
  (quota from floating-point and decimal prices), `BatchFiles` (batch requests and results).
* `Text` has the text functions (split, join, trim), `Wrappers` the option type.

Where the code works by changing things, the model is a class or a method with loops, proved
against functions on values; the properties over runs are lemmas about these functions.

## Where a promise fails, and exactly when it holds

* The window bound of the limiter fails if a key can be evicted before its window has
  passed (`EvictionBreaksRequests`, `EvictionBreaksReservations`), and for a key used through
  both `Request` and `Reserve`, which then accepts up to twice the limit
  (`MixedUseBreaksBound`, `MixedBoundExactly`). It holds for all runs if and only if neither
  is the case (`WindowBoundExactly`). `common/constants.go:214-215` asks for a window within
  the key expiration but nothing checks it.
* Deleting the disabled keys of a channel whose keys are all auto-disabled stores an empty
  key text, which saving ignores: the old keys come back enabled while the channel stays off
  (`DeletingAllKeysLosesTrack`). The exact condition is in `DeletionSettledExactly`, and for
  whole runs in `RunSettledExactly`.
* Keys of a channel whose text is a JSON array are stored line by line after a deletion, so
  that a surviving key that spans lines is torn into several keys (`DeletionTearsKeys`). A
  deletion leaves exactly the surviving keys with their records if and only if their text
  reads back (`DeletionExactly`); for whole runs `RunDoesExactly` says the same.
* Detecting, applying everything and detecting again finds nothing if and only if no added
  name has a comma and no added name is itself an ignore rule that hides another model
  (`SyncConvergesExactly`, `CommaNameKeepsComing`, `PatternNamedModel`).
* The disk budget for request bodies is checked on the announced length, so a longer stream
  exceeds it (`ShortAnnouncementOverruns`). Storing a stream keeps the budget, whatever it
  delivers, if and only if there is room for the longest one allowed (`BudgetExactly`). With
  the largest 64-bit limit the number of bytes to read wraps around and the stored body is
  empty (`ReceivedExactly`).
* Memory and file storage differ for a read into an empty buffer at the end
  (`EmptyReadTells`), and for a reader that is used after it was closed: closing the reader
  of a buffer has no effect (`ClosedReaderTells`). These are all the differences that reads,
  seeks, `Bytes`, closing and readers show (`KindsAgreeExactly`).
* An installation that moves to a base URL whose endpoints overlap with its own is in
  conflict with itself when it needs an endpoint that it gives up only later
  (`MoveConflictsWithItself`); `MovesExactly` says when a move succeeds.
* Batch results that contain a line break are not read back line by line from the result
  files (`FilesAreReadExactly`).

## Model

| member | source | states |
|---|---|---|
| `SlidingWindow.LiveIsSuffix` | common/rate-limit.go:36-53 | in time order the unexpired timestamps are a suffix and everything before has expired |
| `SlidingWindow.IdleLongEnough` | common/rate-limit.go:107-131 | a key idle for the expiration in nanoseconds has no timestamp that still counts in whole seconds |
| `SlidingWindow.SweepExactly` | common/rate-limit.go:107-131 | a sweep keeps exactly the keys active within the expiration, with their buckets, and touches nothing else |
| `SlidingWindow.RunIsSwept` | common/rate-limit.go:107-131 | after every run that ends in a sweep exactly those keys are left, however many there are |
| `SlidingWindow.RequestExactly` | common/rate-limit.go:152-166 | a request, admitted or not, makes its key active and drops what has expired; an admitted one is recorded; nothing else changes |
| `SlidingWindow.ReserveExactly` | common/rate-limit.go:178-190 | a reservation records nothing; an admitted one is issued and counted; nothing else changes |
| `SlidingWindow.CompleteExactly` | common/rate-limit.go:192-211 | the first completion frees the slot; a successful one records the request; a failed one leaves all buckets alone |
| `SlidingWindow.RunHoldsRecent` | common/rate-limit.go:107-211 | in every clock-ordered run, with sweeps at any earlier tick, a bucket is the newest part of all accepted requests and only expired ones are missing |
| `SlidingWindow.RunCountsOutstanding` | common/rate-limit.go:176-211 | in every run the reservation count of a key is the number of its issued, uncompleted reservations, whatever was evicted |
| `SlidingWindow.SecondCompletionIsNoOp` | common/rate-limit.go:194-211 | completing a reservation again changes nothing; the first completion frees exactly one slot |
| `SlidingWindow.RequestOnlyHasNoTokens` | common/rate-limit.go:152-166 | a key used only through `Request` never has a reservation |
| `SlidingWindow.RunInUse` | common/rate-limit.go:152-190 | queued accepted requests plus reservations in flight never exceed the limit, or twice the limit for a key used through both entry points |
| `SlidingWindow.AdmissionExactly` | common/rate-limit.go:152-190 | after every run a request is admitted exactly when fewer than `max` were accepted in the last `duration` seconds, and a reservation exactly when these and the reservations in flight are fewer |
| `SlidingWindow.WindowBound` | common/rate-limit.go:152-211 | in every run and every window of `duration` seconds at most `max` requests of a key are accepted, evictions included, and at most `2 * max` if it is used through both entry points |
| `SlidingWindow.EvictionBreaksRequests` | common/rate-limit.go:107-131 | if the window is longer than the expiration, one sweep lets `max + 1` requests into a window |
| `SlidingWindow.EvictionBreaksReservations` | common/rate-limit.go:107-131 | the same with reservations and their completions |
| `SlidingWindow.WindowBoundExactly` | common/constants.go:214-215 | for a key used through `Request`, `Reserve` or both, the bound holds in all runs if and only if the window fits into the key expiration and only one of the two is used |
| `SlidingWindow.MixedUseBreaksBound` | common/rate-limit.go:152-211 | for every limit and window a key used through both entry points can have twice the limit accepted in one window |
| `SlidingWindow.MixedBoundExactly` | common/rate-limit.go:152-211 | with both entry points a limit holds for all runs if and only if it is at least twice the configured one |
| `RequestQueue.RemainingIsLive` | common/rate-limit.go:36-53 | early return, tail shortcut and loop together keep exactly the unexpired timestamps |
| `SlidingWindow.LiveIsLive` | common/rate-limit.go:36-53 | nothing that is kept has expired |
| `RequestQueue.DropsPrefix` | common/rate-limit.go:47-52 | the loop drops exactly the leading expired timestamps |
| `RequestQueue.Queue.constructor` | common/rate-limit.go:16-20 | a new queue is empty |
| `RequestQueue.Queue.Append` | common/rate-limit.go:23-33 | the linked list holds one timestamp more, at its end |
| `RequestQueue.Queue.RemoveExpired` | common/rate-limit.go:36-53 | the linked list holds what the early return, the shortcut and the loop leave, and no nil is dereferenced |
| `RequestQueue.Queue.Clear` | common/rate-limit.go:56-60 | the queue is empty |
| `QueueTable.Table.constructor` | common/rate-limit.go:90 | no key has a queue |
| `QueueTable.Table.Add` | common/rate-limit.go:138-143 | a new key starts with an empty queue, the other queues are untouched |
| `QueueTable.Table.Length` | common/rate-limit.go:160 | the length field is the number of timestamps of the key |
| `QueueTable.Table.Append` | common/rate-limit.go:162 | one timestamp more for this key, all other keys' lists unchanged |
| `QueueTable.Table.RemoveExpired` | common/rate-limit.go:158 | only this key's list changes, to what `removeExpired` leaves |
| `QueueTable.Table.Forget` | common/rate-limit.go:126 | exactly this key leaves the table |
| `QueueTable.Table.Delete` | common/rate-limit.go:126-129 | exactly this key leaves the table and its queue is cleared |
| `RateLimiter.Limiter.constructor` | common/rate-limit.go:82-97 | a new limiter is the empty state, shares nothing, and its clock starts at the given time |
| `RateLimiter.Limiter.TouchEntry` | common/rate-limit.go:135-149 | the key is the most recently used, its bucket exists, and the LRU list stays sorted by last activity |
| `RateLimiter.MoveToFront` | common/rate-limit.go:142-147 | pushing or moving a key to the front keeps the list sorted by activity, with each key once |
| `RateLimiter.Limiter.Request` | common/rate-limit.go:152-166 | admission and new state are those of the map of buckets |
| `RateLimiter.Limiter.Reserve` | common/rate-limit.go:178-190 | admission and new state are those of the map of buckets and reservations |
| `RateLimiter.Limiter.DeleteExpiredEntries` | common/rate-limit.go:107-131 | the sweep from the back that stops at the first active key keeps exactly the keys whose last activity is less than the expiration ago, with their buckets, and reservations; without a positive expiration it does nothing |
| `RateLimiter.OldestIsActive` | common/rate-limit.go:121-124 | if the last key of the list is active, all keys are |
| `RateLimiter.Limiter.ReleaseSlot` | common/rate-limit.go:202-205 | one reservation less, and no entry when none is left |
| `RateLimiter.Limiter.RecordSuccess` | common/rate-limit.go:206-209 | the request is recorded at the present second, in a new bucket if the old one was evicted |
| `RateLimiter.Complete` | common/rate-limit.go:194-211 | only the first completion has an effect, which is that on the map of buckets and reservations; it can be called again |
| `RateLimiter.Perform` | common/rate-limit.go:107-211 | one event on a limiter has the effect and the answer it has in the model |
| `RateLimiter.Play` | common/rate-limit.go:82-211 | every run played on a new limiter leaves the state of the model after that run and gets its answers |
| `RateLimiter.GrantedIsAccepted` | common/rate-limit.go:152-166 | the requests that were answered with yes are the accepted ones of the model |
| `RateLimiter.AnswersAreBounded` | common/rate-limit.go:152-166 | the limiter says yes to at most `max` requests of a key in any window of a run that is played on it |
| `WorkerPool.HealthCheck` | controller/channel-test.go:936-980 | one check counts at most one test, its counters balance, and exactly when a channel counts as failed, is disabled or is enabled |
| `WorkerPool.StepInv` | controller/channel-test.go:985-1073 | every step of producer, workers, closer or reducer keeps the invariant: jobs are held once, no started test is lost, reports and summary agree with the received results |
| `WorkerPool.RunInv` | controller/channel-test.go:985-1073 | the invariant holds after every schedule |
| `WorkerPool.NoDeadlock` | controller/channel-test.go:1003-1072 | until everything has stopped some step other than a cancellation is enabled |
| `WorkerPool.StepDecreasesMeasure` | controller/channel-test.go:1003-1072 | every step decreases a natural number |
| `WorkerPool.RunIsBounded` | controller/channel-test.go:1003-1072 | no schedule takes more than 6 steps per channel, one per worker and 4 more |
| `WorkerPool.TestedAtMostOnce` | controller/channel-test.go:1008-1027 | at no time has a channel been tested twice, or an ineligible one at all |
| `WorkerPool.RunHasWorkers` | setting/operation_setting/monitor_setting.go:65-73 | there are as many workers as channels, but no more than configured, at least one and at most 32 |
| `WorkerPool.StepPauses` | controller/channel-test.go:1031-1037 | a worker pauses after a result exactly when an interval is configured |
| `WorkerPool.RunPauses` | controller/channel-test.go:1031-1037 | without an interval no worker ever pauses |
| `WorkerPool.UncancelledResult` | controller/channel-test.go:985-1073 | without cancellation every schedule that stops gives in each of the five counters its sum over the outcomes of the eligible channels, and the reports 0 to total |
| `WorkerPool.StoppedResult` | controller/channel-test.go:1003-1072 | with a cancellation at any point each counter is its sum over the received results, every started test is among them and all workers have exited |
| `WorkerPool.TotalIsBalanced` | controller/channel-test.go:1056-1071 | sums of outcomes of health checks are balanced and count no more tests than outcomes |
| `WorkerPool.RunAddsUp` | controller/channel-test.go:1056-1071 | at every moment of every schedule each counter is its sum over the received results |
| `WorkerPool.RunIsBalanced` | controller/channel-test.go:985-1073 | at every moment of every schedule, cancelled or not, tested is succeeded plus failed, and disabled plus enabled is at most tested, tested at most processed, processed at most total |
| `WorkerPool.RunChannelTestWorkers` | controller/channel-test.go:985-1073 | whatever enabled step is picked each time, the pool stops with each counter summed over the received results, and over the eligible channels if it is not cancelled |
| `Text.SplitJoin` | model/channel.go:182-203 | parts without the separator are read back from their joined text |
| `Text.SplitCount` | model/channel.go:182-203 | a text has one part more than separators, and no part contains one |
| `Text.JoinSplit` | model/channel.go:182-203 | joining the parts of a text gives the text |
| `Text.ParsedPart` | model/channel.go:296-301 | a non-empty part without separator is read back, whatever the other parts are |
| `Text.TrimSpaceIs` | controller/channel_upstream_update.go:101-106 | trimming cuts off white space only, on both sides, and leaves none at the ends |
| `Text.ParseJoin` | model/channel.go:182-203 | a joined list is read back by trimming and splitting exactly when no part has the separator and the ends are not empty |
| `MultiKeyChannel.WithRecordsKeepsRecords` | controller/channel.go:2033-2038 | after re-indexing, the maps stand for the given records exactly when the key text reads back |
| `MultiKeyChannel.ReloadsExactly` | model/channel.go:182-203 | line-separated keys read back exactly when storable |
| `MultiKeyChannel.ReadsBackExactly` | model/channel.go:182-203 | what a caller can check of keys to be stored, array or lines, is that they read back and are not empty |
| `MultiKeyChannel.CountMatches` | model/channel.go:575-622 | saving counts the keys that reading gives |
| `MultiKeyChannel.RunKeepsConsistent` | model/channel.go:575-622 | in every run the stored key count is the one that saving computes |
| `MultiKeyChannel.ActKeepsCoherent` | controller/channel.go:109-136 | every key action leaves an enabled channel with an enabled key |
| `MultiKeyChannel.ActKeepsOtherReasons` | controller/channel.go:124-136 | a channel that is off for another reason keeps its status and reason |
| `MultiKeyChannel.ActKeepsSettled` | controller/channel.go:1809-2127 | a channel that follows its keys is on exactly when a key is enabled, after every action whose deletions read back |
| `MultiKeyChannel.SettledExactly` | controller/channel.go:1809-2127 | and after any action if and only if a deletion keeps track of its survivors |
| `MultiKeyChannel.DeletionSettledExactly` | controller/channel.go:1973-2127 | after a deletion the channel still follows its keys if and only if the stored text keeps track of them |
| `MultiKeyChannel.DeletingAllKeysLosesTrack` | controller/channel.go:2056-2127 | deleting the only, auto-disabled key brings it back enabled with the channel off |
| `MultiKeyChannel.DeletionExactly` | controller/channel.go:1991-2109 | a deletion leaves the survivors in order with status, time and reason if and only if their text reads back |
| `MultiKeyChannel.DeletionTearsKeys` | controller/channel.go:2034 | deleting one key of an array channel tears a surviving key that spans lines |
| `MultiKeyChannel.ActOnRecords` | controller/channel.go:1809-2127 | on the list of key records every action does what its name says if and only if it is not a deletion whose survivors do not read back |
| `MultiKeyChannel.SucceedsExactly` | controller/channel.go:1809-2127 | on a channel with keys: disabling or enabling key i succeeds iff there is one; deleting it iff it is also not the last; disabling all iff one is enabled; deleting the disabled iff one is auto-disabled; enabling all always |
| `MultiKeyChannel.KeyActionsDo` | controller/channel.go:1809-1896 | disabling a key makes its status 2, enabling it clears its record, and other keys are left alone |
| `MultiKeyChannel.AllActionsDo` | controller/channel.go:1898-1971 | enabling all clears all records; disabling all makes the enabled ones 2 and leaves the others |
| `MultiKeyChannel.DeleteKeyDoes` | controller/channel.go:1991-2038 | the keys before and after the deleted one remain with their records |
| `MultiKeyChannel.DeleteDisabledDoes` | controller/channel.go:2057-2109 | exactly the keys that are not auto-disabled remain, in order and with their status, time and reason |
| `MultiKeyChannel.DeletionKeepsPositions` | controller/channel.go:1991-2109 | after a deletion the key count is that of the stored text, and exactly when all map positions are below it; both with the number of survivors if these read back |
| `MultiKeyChannel.RunKeepsCoherent` | controller/channel.go:90-136 | in every run an enabled channel has an enabled key |
| `MultiKeyChannel.RunKeepsOtherReasons` | controller/channel.go:124-136 | no run of key actions switches a channel that is off for another reason |
| `MultiKeyChannel.RunDoesExactly` | controller/channel.go:1809-2127 | in every run all actions do to the records what they say if and only if all deletions read back |
| `MultiKeyChannel.RunSettledExactly` | controller/channel.go:1809-2127 | in every run of a channel that follows its keys it is on exactly when a key is enabled, at all times, if and only if every deletion keeps track of its survivors |
| `MultiKeyChannel.RunKeepsSettled` | controller/channel.go:1809-2127 | in every run whose deletions read back, both hold and the records are those the actions made |
| `MultiKeyManager.Channel.HasEnabledMultiKey` | controller/channel.go:90-107 | the loop finds an enabled key exactly when there is one |
| `MultiKeyManager.Channel.DisableIfUnavailable` | controller/channel.go:109-122 | new status and reason, and whether connections are to be closed |
| `MultiKeyManager.Channel.RestoreIfAvailable` | controller/channel.go:124-136 | the channel is switched on only if it was off for lack of keys |
| `MultiKeyManager.Channel.Update` | model/channel.go:575-622 | saving keeps the stored key text if the new one is empty, recounts the keys and drops statuses beyond them |
| `MultiKeyManager.Channel.DisableKey` | controller/channel.go:1809-1853 | succeeds exactly for a position in range; saved row, and whether connections are to be closed |
| `MultiKeyManager.Channel.EnableKey` | controller/channel.go:1855-1896 | succeeds exactly for a position in range; saved row |
| `MultiKeyManager.Channel.EnableAllKeys` | controller/channel.go:1898-1921 | success, saved row, and the number of statuses that were cleared |
| `MultiKeyManager.Channel.DisabledStatuses` | controller/channel.go:1928-1955 | the loop disables exactly the enabled keys and counts them |
| `MultiKeyManager.Channel.DisableAllKeys` | controller/channel.go:1923-1971 | success, saved row, number of disabled keys, and whether connections are to be closed |
| `MultiKeyManager.Channel.RebuildWithout` | controller/channel.go:1991-2023 | the loop's new key list and maps stand for the records without the deleted one |
| `MultiKeyManager.Channel.RebuildCleaned` | controller/channel.go:2057-2095 | the loop's new key list and maps stand for the records without the auto-disabled ones |
| `MultiKeyManager.Channel.DeleteKey` | controller/channel.go:1973-2054 | success, saved row, and whether connections are to be closed |
| `MultiKeyManager.Channel.DeleteDisabledKeys` | controller/channel.go:2056-2126 | success, saved row, number of deleted keys, and whether connections are to be closed |
| `AppInstallation.NetworkPolicyTightens` | controller/app_plugin.go:747-757 | true exactly when private ranges stay denied and no host is added |
| `AppInstallation.ValidateEnable` | controller/app_plugin.go:1002-1049 | no error exactly when the installation is ready, and which error a missing registration gives |
| `AppInstallation.ReadyExactly` | controller/app_plugin.go:1002-1049 | what an installation needs to be enabled: registration, scopes, probe, surfaces and, if embedded, trusted parent origins on the same site |
| `AppInstallation.AcceptsExactly` | controller/app_plugin.go:329-411 | which patches go ahead, by role, status, what they configure and whether they can be resolved |
| `AppInstallation.CommitOnStoredRow` | controller/app_plugin.go:429-442 | the revision guard makes a decision on a possibly stale read a decision on the stored row |
| `AppInstallation.CommitWrites` | controller/app_plugin.go:383-442 | a commit writes each of the columns the patch names with its value, keeps the others and the identity, adds one to the revision, and touches no other row; a revocation takes the claims and credentials of its installation only |
| `AppInstallation.RunWrites` | controller/app_plugin.go:383-442 | every commit of every run wrote the columns like this |
| `AppInstallation.MovesKeepExclusive` | model/app_plugin.go:431-479 | moving the route claims claims all three endpoints, none twice, and touches no other claim |
| `AppInstallation.MovesExactly` | model/app_plugin.go:431-479 | the claims can be moved if and only if the endpoints differ and each is kept, or claimed by nobody but this installation for a kind moved before it |
| `AppInstallation.MoveConflictsWithItself` | model/app_plugin.go:453-475 | an installation that takes its own direct endpoint for the callback is in conflict with itself |
| `AppInstallation.ClaimsAfterKept` | controller/app_plugin.go:413-417 | after a change of base URL the claims are those of the new URL |
| `AppInstallation.RunKeepsSound` | controller/app_plugin.go:350-448 | in every reachable state no endpoint is claimed twice, live installations claim the endpoints of their base URL, revoked ones have neither claims nor live credentials |
| `AppInstallation.RunKeepsFresh` | controller/app_plugin.go:429-442 | in every run an open transaction that still has the stored revision has read the stored row |
| `AppInstallation.RunIsLogged` | controller/app_plugin.go:350-448 | in every run the accepted patches of an installation lead from its first row to its stored one, each accepted on the row before it |
| `AppInstallation.RevisionsFormChain` | controller/app_plugin.go:429-442 | accepted patches name consecutive revisions, so each revision has at most one winner, and the stored revision counts them |
| `AppInstallation.RevokedIsAbsorbing` | controller/app_plugin.go:429-442 | a revoked installation never changes again |
| `AppInstallation.EnabledWasChecked` | controller/app_plugin.go:353-361 | the configuration of an enabled installation is the one that passed the enable check |
| `AppInstallation.BelowRootTightens` | controller/app_plugin.go:329-347 | a patch by a user below root only tightens the network policy and changes neither surfaces nor parent origins, and does not revoke |
| `AppInstallation.BelowRootOnlyTightens` | controller/app_plugin.go:378-381 | over every run of such patches the allowed hosts only shrink and private ranges stay denied |
| `AppInstallationStore.Database.UpdateRouteClaims` | model/app_plugin.go:431-479 | the statements move the three claims or report a conflict |
| `AppInstallationStore.Database.Decide` | controller/app_plugin.go:352-411 | no error exactly when the patch may go ahead on the row it has read |
| `AppInstallationStore.Database.Patch` | controller/app_plugin.go:303-448 | succeeds exactly when admitted and committed and otherwise leaves the tables alone; what it writes column by column, and to claims and credentials; an incomplete request, a role that does not allow it, a missing row, a revoked row, another revision and a lost app key are refused with their errors, in this order |
| `AppInstallationStore.NormalizeStrings` | controller/app_plugin.go:828-841 | sorted, without repetition, exactly the non-empty values |
| `AppInstallationStore.BeforeIs` | controller/app_plugin.go:828-841 | the order of the list: the first difference decides, and a proper prefix comes first |
| `AppInstallationStore.IncreasingIsUnique` | controller/app_plugin.go:828-841 | the result does not depend on the order in which the set is walked |
| `UpstreamModels.NormalizeIsCanonical` | controller/channel_upstream_update.go:101-106 | trimmed, non-empty and distinct, and exactly the names mentioned |
| `UpstreamModels.NormalizeCanonical` | controller/channel_upstream_update.go:101-106 | a normalised list is left alone |
| `UpstreamModels.NormalizeAt` | controller/channel_upstream_update.go:101-106 | normalising keeps the order of first mention |
| `UpstreamModels.MergeMembers` | controller/channel_upstream_update.go:108-122 | the union, normalised |
| `UpstreamModels.SubtractMembers` | controller/channel_upstream_update.go:124-133 | the difference, normalised |
| `UpstreamModels.IntersectMembers` | controller/channel_upstream_update.go:135-144 | the intersection, normalised |
| `UpstreamModels.ApplySelectedMembers` | controller/channel_upstream_update.go:146-151 | exactly the added names and the old names not removed; adding wins |
| `UpstreamModels.ChangedExactly` | controller/channel_upstream_update.go:1029-1034 | the list differs exactly when the set of models does |
| `UpstreamModels.PendingMembers` | controller/channel_upstream_update.go:180-239 | what is pending: upstream names not local, not redirected to and not ignored; local names gone upstream and no redirection source |
| `UpstreamModels.PendingExactly` | controller/channel_upstream_update.go:180-239 | in terms of the lists: a name upstream mentions and the channel does not is to be added unless a redirection leads to it or a rule hides it; one the channel mentions and upstream does not is to be removed unless a redirection starts at it |
| `UpstreamModels.FilterAt` | controller/channel_upstream_update.go:214-237 | what is pending keeps the order of the lists |
| `UpstreamModels.ApplyPartitions` | controller/channel_upstream_update.go:1021-1044 | pending additions are added, ignored or remain; pending removals are removed or remain; added names leave the ignore list |
| `UpstreamModels.ApplyModels` | controller/channel_upstream_update.go:1029-1034 | the new model set, and that the text is rewritten exactly when it changes |
| `UpstreamModels.ApplyExactly` | controller/channel_upstream_update.go:1029-1048 | the stored models read back as the new ones, the time is set, and nothing else of the settings changes |
| `UpstreamModels.DetectExactly` | controller/channel_upstream_update.go:578-603 | a check sets the pending lists and the time, and changes the models only by an automatic sync, to which they are appended |
| `UpstreamModels.SyncIs` | controller/channel_upstream_update.go:1104-1114 | applying all pending changes applies exactly what was found |
| `UpstreamModels.SyncKeepsSource` | controller/channel_upstream_update.go:229-234 | the source of a redirection stays when everything found is applied |
| `UpstreamModels.RoundsKeepSources` | controller/channel_upstream_update.go:229-234 | over any rounds of checking and applying, whatever upstream offers, no source of a redirection leaves the models |
| `UpstreamModels.StoredModels` | model/channel.go:296-301 | a model list is read back as it was stored if and only if no name has a comma |
| `UpstreamModels.NewlyPending` | controller/channel_upstream_update.go:1036-1039 | after applying all, nothing is pending but models that lost their ignore rule |
| `UpstreamModels.SyncConvergesExactly` | controller/channel_upstream_update.go:1104-1114 | detect, apply all, detect again finds nothing if and only if added names have no comma and the hiding rules survive |
| `UpstreamModels.PlainNamesKeepRules` | controller/channel_upstream_update.go:214-226 | without added names that look like patterns the hiding rules survive |
| `UpstreamModels.AutoSyncCount` | controller/channel_upstream_update.go:587-594 | the number of automatically added models is the number of pending additions |
| `UpstreamModels.AutoSyncConvergesExactly` | controller/channel_upstream_update.go:587-599 | after an automatic sync nothing is left to add if and only if added names have no comma |
| `UpstreamModels.CommaNameKeepsComing` | controller/channel_upstream_update.go:1032-1034 | a name with a comma is found missing again after it was added |
| `UpstreamModels.RuleNamedModelUncovers` | controller/channel_upstream_update.go:1037-1039 | adding a model named like a rule uncovers what the rule hid |
| `UpstreamModels.PatternNamedModel` | controller/channel_upstream_update.go:1037-1039 | an instance with a pattern rule |
| `UpstreamSync.MergeModelNames` | controller/channel_upstream_update.go:108-122 | the loop with its seen-set computes the normalised concatenation |
| `UpstreamSync.CollectPending` | controller/channel_upstream_update.go:180-239 | the two filters over the sets compute the pending additions and removals, spelled out in terms of the lists, the mapping and the rules |
| `UpstreamSync.SyncedChannel.Check` | controller/channel_upstream_update.go:563-610 | when a check is skipped, what a failed fetch leaves, and models, settings and counts after a check |
| `UpstreamSync.SyncedChannel.ApplyUpdates` | controller/channel_upstream_update.go:1008-1056 | the updated channel, the returned lists and whether the models changed |
| `BodyStorage.AfterKeeps` | common/body_storage.go:62-116 | over any operations the content stays and closing is final |
| `BodyStorage.ReadExactly` | common/body_storage.go:62-69 | a read delivers as much as there is room for and is left, from the cursor on, and moves the cursor by that |
| `BodyStorage.SeekExactly` | common/body_storage.go:71-78 | a seek goes to the offset from the start, the cursor or the end, and not before the start |
| `BodyStorage.BytesExactly` | common/body_storage.go:89-96 | `Bytes` shows the content and moves nothing; closing only closes |
| `BodyStorage.ClosedTrace` | common/body_storage.go:62-108 | after closing every access to the body and every opening of a reader reports it, and closing again is silent |
| `BodyStorage.OpensExactly` | common/body_storage.go:98-108 | a reader can be opened exactly until the body is closed, and then stands at its start |
| `BodyStorage.KindsAgreeExactly` | common/body_storage.go:196-275 | reads, seeks, `Bytes`, closing and readers of memory and file storage show the same in every sequence except exactly one that reads into an empty buffer at the end or uses a closed reader |
| `BodyStorage.ClosedReaderTells` | common/body_storage.go:103-107 | a closed reader still delivers from a buffer and fails on a file |
| `BodyStorage.EmptyReadTells` | common/body_storage.go:196-203 | a read into an empty buffer at the end is an error from a buffer and none from a file |
| `BodyStorage.KindsAgree` | common/body_storage.go:196-275 | with non-empty buffers, and no reader used after its closing, they are indistinguishable |
| `BodyStorage.KindsMoveAlike` | common/body_storage.go:196-257 | the body itself is always in the same state |
| `BodyStorage.ReadsReplay` | common/body_storage.go:62-69 | however reads are cut, they deliver the content from the cursor on, in order and once |
| `BodyStorage.RewoundReplaysAll` | common/body_storage.go:71-78 | a rewound body delivers all of its content |
| `BodyStorage.ReaderReplays` | common/body_storage.go:98-108 | a reader delivers the content from its cursor on by its own reads alone, whatever is done to the body, closing included, and to other readers |
| `BodyStorage.OpenedReaderReplays` | common/body_storage.go:259-275 | a reader opened at any time before the closing replays the content from its first byte |
| `BodyStorage.RunReplays` | common/body_storage.go:259-275 | over every run of all bodies a reader delivers by its own reads alone |
| `BodyStorage.ReceivedExactly` | common/body_storage.go:328-335 | a stream is received in full exactly when it ends within the limit, except at the largest limit |
| `BodyStorage.RunKeepsCounted` | common/disk_cache_config.go:109-134 | in every run the counters are the number and the bytes of the open files and buffers |
| `BodyStorage.BudgetExactly` | common/disk_cache_config.go:170-177 | storing a stream keeps the files within the budget, whatever it delivers, if and only if it does not go to disk or there is room for the longest one allowed |
| `BodyStorage.OthersKeepBudget` | common/disk_cache_config.go:170-177 | data at hand and operations on bodies never exceed the budget |
| `BodyStorage.RunKeepsBudget` | common/disk_cache_config.go:170-177 | over runs in which streams deliver no more than announced the files stay within the budget |
| `BodyStorage.ShortAnnouncementOverruns` | common/body_storage.go:310-326 | one announced byte lets a longer stream past the budget |
| `BodyStorage.StreamIsStoredExactly` | common/body_storage.go:307-348 | when storing a stream succeeds, what is stored then, and that nothing changes otherwise |
| `BodyStorage.DataIsStoredExactly` | common/body_storage.go:286-304 | data goes to a working disk exactly when it reaches the threshold and fits into the budget, and to memory otherwise, and is counted there |
| `BodyStorage.StreamKindExactly` | common/body_storage.go:307-348 | a stream goes to disk on its announced or else its received length, and the hit of the kind it goes to is counted |
| `BodyStorage.RunIsolates` | common/body_storage.go:62-283 | over every run a stored body and its readers are as their own operations leave them and show what these show |
| `StorageObjects.Counters.IncrementDiskFiles` | common/disk_cache_config.go:109-112 | one file and its bytes more |
| `StorageObjects.Counters.DecrementDiskFiles` | common/disk_cache_config.go:115-122 | one file and its bytes less, not below zero |
| `StorageObjects.Counters.IncrementMemoryBuffers` | common/disk_cache_config.go:125-128 | one buffer and its bytes more |
| `StorageObjects.Counters.DecrementMemoryBuffers` | common/disk_cache_config.go:131-134 | one buffer and its bytes less |
| `StorageObjects.Counters.IncrementHits` | common/disk_cache_config.go:137-144 | one hit more of the kind |
| `StorageObjects.MemoryStorage.constructor` | common/body_storage.go:52-60 | open, at the start, holding the data, and counted |
| `StorageObjects.MemoryStorage.Read` | common/body_storage.go:62-69 | result and new state of the abstract read |
| `StorageObjects.MemoryStorage.Seek` | common/body_storage.go:71-78 | result and new state of the abstract seek, negative positions refused |
| `StorageObjects.MemoryStorage.Close` | common/body_storage.go:80-87 | closed, and released from the counters once |
| `StorageObjects.MemoryStorage.Bytes` | common/body_storage.go:89-96 | the whole content, without moving the cursor |
| `StorageObjects.MemoryStorage.NewReader` | common/body_storage.go:98-108 | a new reader at the start unless closed |
| `StorageObjects.BufferReader.Read` | common/body_storage.go:107 | result and new state of reading from a buffer |
| `StorageObjects.BufferReader.Close` | common/body_storage.go:107 | no error and no effect |
| `StorageObjects.DiskStorage.constructor` | common/body_storage.go:127-157 | a new file with the data, open at the start, and counted |
| `StorageObjects.DiskStorage.Read` | common/body_storage.go:196-203 | result and new state of the abstract read |
| `StorageObjects.DiskStorage.Seek` | common/body_storage.go:205-212 | result and new state of the abstract seek |
| `StorageObjects.DiskStorage.Close` | common/body_storage.go:214-223 | closed with its file, which is removed, and released from the counters once |
| `StorageObjects.DiskStorage.Bytes` | common/body_storage.go:225-257 | seeking, reading and seeking back gives the whole content and leaves the state as it was |
| `StorageObjects.DiskStorage.NewReader` | common/body_storage.go:259-275 | a new descriptor at the start, unless closed or the file is gone |
| `ByteStreams.Descriptor.Read` | common/body_storage.go:196-203 | result and new state of reading an open file, and the error of a closed one |
| `ByteStreams.Descriptor.Seek` | common/body_storage.go:205-212 | result and new state of seeking in an open file, and the error of a closed one |
| `ByteStreams.Descriptor.Close` | common/body_storage.go:270-274 | closes the file, and is an error the second time |
| `ByteStreams.Descriptor.ReadFull` | common/body_storage.go:244-249 | repeated reads fill the buffer or report the end or the closed file |
| `StorageObjects.CreateBodyStorage` | common/body_storage.go:286-304 | a new body of the chosen kind and the counters with it |
| `StorageObjects.ReadBounded` | common/body_storage.go:328-335 | reading one byte more than allowed tells whether the stream is too long |
| `StorageObjects.CreateBodyStorageFromReader` | common/body_storage.go:307-348 | route, result, counters and files of storing a stream |
| `OggOpus.GetOpusDuration` | common/audio.go:199-255 | the loop ends on every input and returns the largest granule of the walk at 48 kHz, or the error of a stream that was closed, and does not close it |
| `OggOpus.PageSize` | common/audio.go:243-247 | the sum of the segment sizes |
| `OggOpus.StartsArePages` | common/audio.go:221-228 | the walk takes only positions with the capture pattern and room for a header for pages |
| `OggOpus.LargestOfStarts` | common/audio.go:230-234 | for all bytes the result is the maximum of zero and the granules at the visited positions |
| `OggOpus.GranuleRoundTrip` | common/audio.go:231 | a signed granule is read back from its eight little-endian bytes |
| `OggOpus.PageIsRead` | common/audio.go:230-248 | at the start of a page the walk reads its granule and jumps to its end |
| `OggOpus.WalkOfPages` | common/audio.go:209-251 | on well-formed pages it visits exactly their starts and takes the largest granule, and goes on with whatever follows |
| `OggOpus.WalkOfTail` | common/audio.go:209-251 | in bytes in which no page begins it finds nothing |
| `OggOpus.CutPageCounts` | common/audio.go:230-250 | a page that is cut off after its header counts, and ends the walk |
| `OggOpus.WalkOfJunk` | common/audio.go:222-228 | it finds its way to the first page through bytes in which none begins |
| `OggOpus.LengthOfStream` | common/audio.go:199-255 | leading and trailing bytes that are no pages do not change the result |
| `OggOpus.WalkResumes` | common/audio.go:221-228 | between two stretches of pages it finds its way through bytes in which none begins |
| `OggOpus.LargestGranuleIs` | common/audio.go:231-234 | the maximum of zero and the granules; pages with a negative one do not count |
| `QuotaMath.NearestIsClose` | common/quota_math.go:160 | the floating-point step moves an integer by at most half the spacing |
| `QuotaMath.NearestOf` | common/quota_math.go:160 | integers up to 2^53 are exact and larger ones stay at least 2^53 |
| `QuotaMath.NearestIsEven` | common/quota_math.go:160 | from halfway the even multiple is taken |
| `QuotaMath.SpacingIsPower` | common/quota_math.go:160 | the spacing is a power of two |
| `QuotaMath.FloatOfCompares` | common/quota_math.go:91-94 | comparing the converted integer with a bound below 2^53 decides as comparing the integer |
| `QuotaMath.RoundIsNearest` | common/quota_math.go:129-142 | rounding gives the one nearest integer, halves away from zero |
| `QuotaMath.TruncateIs` | common/quota_math.go:96-97 | truncating goes to the next integer towards zero |
| `QuotaMath.SaturateIs` | common/quota_math.go:86-100 | the quota is the truncated value brought into bounds, and a clamp is recorded exactly when the value was outside or not a number |
| `QuotaMath.SaturateIsMonotone` | common/quota_math.go:86-100 | a larger price never becomes a smaller quota |
| `QuotaMath.StrictIs` | common/quota_math.go:102-127 | strict conversion succeeds exactly for values in bounds |
| `QuotaMath.StrictRoundsExactly` | common/quota_math.go:146-168 | strict conversion of a rounded float and of a decimal gives the rounded value exactly in the 32-bit range |
| `QuotaMath.FromDecimalIs` | common/quota_math.go:157-162 | a decimal becomes its rounded value clamped to 32 bits, recorded exactly when out of range |
| `QuotaMath.WalletIsExact` | common/quota_math.go:170-175 | a wallet value is accepted exactly when its rounded value is in the safe range and is then exact |
| `QuotaMath.BeyondIsInexact` | common/quota_math.go:170-171 | beyond the safe range two integers share a floating-point number |
| `QuotaMath.RoundingAgrees` | common/quota_math.go:129-162 | rounding a price gives the same quota and the same kind of clamp as a floating-point number and as a decimal |
| `BatchFiles.ParseBatch` | controller/batch.go:230-311 | the scanning loop computes the outcome of the file |
| `BatchFiles.ProblemIs` | controller/batch.go:249-292 | a line is refused exactly when it is not fine by itself or its id is taken |
| `BatchFiles.FineExactly` | controller/batch.go:249-292 | what a request has to be: known fields, an id of 1 to 128 bytes, POST, the endpoint, a body with a model and no streaming |
| `BatchFiles.ReasonsInOrder` | controller/batch.go:249-292 | the reasons for a refusal, in the order in which they are looked for |
| `BatchFiles.ItemExactly` | controller/batch.go:293-299 | what the item of a request carries |
| `BatchFiles.LinesExactly` | controller/batch.go:236-240 | what follows the last line break is a line exactly if there is anything |
| `BatchFiles.ParseLinesExactly` | controller/batch.go:240-300 | the lines are parsed exactly when acceptable, and to one item per line that is not blank, in order |
| `BatchFiles.ParseStops` | controller/batch.go:240-300 | the first refusal is the outcome |
| `BatchFiles.ErrorLine` | controller/batch.go:240-300 | a refusal names the first line with which the lines so far are not acceptable |
| `BatchFiles.ParseExactly` | controller/batch.go:230-311 | a file is accepted exactly when readable, without over-long line, with one to limit requests, all fine and with different ids |
| `BatchFiles.ItemsAreDistinct` | controller/batch.go:264-271 | accepted items have different ids, not empty and of at most 128 bytes, and increasing line numbers |
| `BatchFiles.EncodeResults` | controller/batch_dispatch.go:414-444 | both files up to the first request without a result, and the error for it |
| `BatchFiles.ReadyExactly` | controller/batch_dispatch.go:418-431 | a request has a result when it is completed, failed or cancelled and its line is not empty |
| `BatchFiles.OneLineEach` | controller/batch_dispatch.go:414-444 | every request has exactly one line, in the file of its outcome, after those before it |
| `BatchFiles.WrittenIsRead` | controller/batch_dispatch.go:432-441 | written lines are read back line by line if and only if none contains a line break |
| `BatchFiles.FilesAreReadExactly` | controller/batch_dispatch.go:432-441 | the two files are read back as their results if and only if no result contains a line break |
| `BatchFiles.BatchIsConserved` | controller/batch_dispatch.go:414-444 | an accepted batch with all results writes them all; without line breaks in them the request on each line that is not blank has its result, under its id, as a line of the file of its outcome, in order, and the files have no other lines |

## Left out

- Locking, tickers and goroutines of the limiter: each operation is one atomic step, the time is a parameter and does not go backwards.
- The limiter keeps last activity and queue of a key in one record; the model keeps them in two maps with the same keys, and the LRU element of a key as its position in a list of keys.
- Calling `Init` of the limiter a second time, which does nothing.
- WorkerPool: the time a pause takes is not modelled, and a channel's test is one step that ends with an outcome as `HealthCheck` gives; a nil channel and a manually disabled one are both ineligible.
- The multi-key paging action `get_key_status`, the polling of keys, and manual edits of a channel between key actions.
- MultiKeyManager.Channel.Update: a failing database update and the rebuilding of abilities are not modelled.
- App-plugin creation, credentials other than their revocation, and the decoding of requests; digests of claims are modelled as what they digest.
- AppInstallationStore.Database.Patch: the retrying of database transactions and failures of single statements, which roll back, are not modelled.
- Regular expressions, URL comparison, JSON and the model mapping's decoding: they are parameters.
- UpstreamSync.SyncedChannel.Check: failures to store the settings or to update the abilities are not modelled, and a failed fetch is told apart only by its effect on the channel.
- The batched task over all channels and its notifications.
- BodyStorage: input and output failures other than a failing stream and a disk that cannot be used, seek positions beyond 64 bits, and seek origins other than the three of the io package are not modelled; a read delivers as much as there is room for.
- BodyStorage.KindsAgreeExactly: `IsDisk`, which tells the kinds apart by name, and `Size`, which is the same for both, are not among the operations.
- StorageObjects.MemoryStorage.Bytes: the source returns the stored array itself; what a caller that writes to it does to the body is not modelled.
- `ResetDiskCacheUsage`, `SyncDiskCacheStats` and the removal of old cache files, which change counters and files outside the lifetime of a storage; a changing configuration.
- OggOpus.GetOpusDuration: the division is exact, and reads that deliver less than there is are not modelled.
- QuotaMath: a clamp record does not name the conversion, and a finite floating-point value is any real number; writing the log is not modelled.
- BatchFiles: text is a sequence of characters and its length in bytes a parameter, so text that is not valid UTF-8 is not modelled; the error text and the random id in the line of a cancelled request are parameters or left out.
- Batch and deferred-task leases, HTTP handlers, other audio formats, hashing, encryption and payments.
