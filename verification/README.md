# Amarre, modelled and proved

Amarre is a console that supervises a fleet of backup hosts over SSH. This project models the parts of it that hold
state and have to be right without anybody looking: the cache of snapshot trees, the pool of SSH connections, the
health history with its retention and its three aggregations, the control of operations and of retries, the limiter
of login attempts, and three small algorithms (a decimal printer, a QR printer, a breadcrumb trail).

How it is laid out:

- Code that runs under a mutex appears twice. A class has the Go fields and one method for each region held under the
  lock; each method is proved equal to a step function or relation (`LookupStep`, `PublishStep`, `FindStep`,
  `ClaimStep`, ...). A step system then interleaves those same steps with everything that happens outside the lock
  (loads, dials, remote answers, loss of a connection), in any order and for any number of calls, and the properties
  are about every state of every run.
- Loops that fill slices are methods with loops, proved against a declarative reading of the result: a cell of the
  frieze is the worst point of its interval, the episodes are the maximal runs, the children of a directory are a
  sorted permutation of a filter.
- Each specification function is also tied to the outside by a law that does not mention it: what `used`, `last` and a
  dead mark mean is told by the steps of the run, a limiter's or a back-off's decision by the past operations alone, a
  cell, a slot, an episode or a view by the points or checks it comes from, a count by the size of a set.
- Time is an integer and one reading of the clock is passed in wherever the code reads it once per decision; the
  history page takes one `now` for its three parts. The clock never goes back.
- Go's integer width matters in four places and is written out there: the delay of the back-off and the argument of
  `itoa` wrap at 64 bits, the division that finds an interval truncates toward zero, and percentages go through
  binary64, whose rounding is any function that respects the error bound of round-to-nearest.

## What the proofs brought to light

- Single flight is what keeps the node counter right: publishing over an entry would leave the counter too high by the
  size of the entry replaced, for ever, unless the eviction had just removed that very entry
  (`TreeCache.OverwriteBreaksCounter`).
- A call that waits for another one's load can fail although the load succeeded (`TreeProtocol.WaiterMayMissGoodLoad`).
  It fails exactly if the entry was removed after its publication and not published again before the waiter's look,
  and never if meanwhile the host was not invalidated and every publication found room
  (`TreeWaiters.WaiterOfGoodLoad`).
- Cache keys of two hosts can be confused, and one host's invalidation can hit another's entries, exactly when one
  name extends the other by a `|` (`TreeCache.KeyIsInjective`, `TreeCache.InvalidationIsExact`).
- `Browse("")` looks up `.` in the tree and `/` in the fallback listing; any other path gives the same directory
  (`TreeIndex.SameDirectoryUnlessEmpty`). This concerns the function alone: both its callers put `/` for an empty path
  first (internal/web/server.go:414 and :530). The two answers are the same list exactly when entries of the same kind and
  name are equal (`TreeIndex.ListingIsDetermined`).
- The comment on `maxSessions` promises four sessions on a connection. The retry of `run` opens a session on the new
  connection without taking a token of it, so there can be more: by the number of such retries at most, and by any
  number of them in some run (`PoolSessions.SessionsBoundedButForRetries`, `PoolRuns.SessionsReachBound`).
- `reap` looks at the time of the last `get`, so it closes a connection in use exactly when that is more than ten
  minutes ago (`PoolSessions.ReapEndsIdleSessions`), which does happen (`PoolRuns.ReapClosesBusyConnection`).
- The retry of `run` drops whatever the table holds for its key. It takes down a connection other than the one that
  refused its session exactly when another one has been installed meanwhile (`PoolSessions.DropTakesDownOther`), even a
  healthy one that serves another call (`PoolRuns.DropTakesDownHealthy`).
- With an interval of 2^55 ns or more (over a year) the shift of the back-off overflows and the cap no longer applies
  (`Backoff.DelayIsCapped`, `Backoff.OverflowingInterval`). `itoa` of the least 64-bit integer is `-` alone
  (`Itoa.RoundTrip`).
- The first cell of the frieze is right only because the series starts at the window's start: truncation toward zero
  would also put the points of almost one whole step before it into that cell (`Frieze.QuotInterval`).
- Fifteen days of retention are enough for every window; the limit is the window's duration less one second
  (`PageLaws.ShorterRetentionShows`).
- The last crumb is the cleaned path exactly when no segment is `.` or `..` (`Crumbs.LastCrumbIsCleanPath`).
- Where the fleet page has no health record for a host (`known` false) it calls `ok` a host whose history row is
  `warn` or `crit`, exactly when the backups are fine and there is an alert (`Sante.UnknownHealthHides`).

## Model

| member | source | states |
|---|---|---|
| TreeCache.TreeStore.Lookup | internal/collector/trees.go:58-80 | the first locked region: a hit refreshes the time of use, a running load is waited for, otherwise this call becomes the loader |
| TreeCache.TreeStore.Recheck | internal/collector/trees.go:69-75 | a waiter's second look finds the tree or nothing and changes nothing |
| TreeCache.TreeStore.Publish | internal/collector/trees.go:96-101 | eviction, insertion and counter, as one publication step |
| TreeCache.TreeStore.Finish | internal/collector/trees.go:82-87 | the end of a load frees its key and nothing else |
| TreeCache.TreeStore.EvictLocked | internal/collector/trees.go:110-125 | the loop terminates; it removes only entries used no later than every survivor, none if the newcomer fits, and stops at the first point where it fits |
| TreeCache.TreeStore.Oldest | internal/collector/trees.go:112-118 | the scan with the empty key as sentinel finds an entry used no later than any other |
| TreeCache.TreeStore.InvalidateTrees | internal/collector/trees.go:128-138 | deleting while iterating removes exactly the entries whose key begins with the host and a bar, and takes their nodes off the counter |
| TreeCache.PublishKeepsConsistent | internal/collector/trees.go:96-125 | publishing an absent key keeps the counter equal to the sum of the counts, `used` and `trees` with the same keys, and the memory bound (at most 800,000 nodes, or a single tree) |
| TreeCache.EvictionExists | internal/collector/trees.go:110-125 | from every consistent state an eviction that meets the specification exists |
| TreeCache.OverwriteBreaksCounter | internal/collector/trees.go:96-101 | whatever is evicted, publishing over an entry leaves the counter too high by exactly that entry's count, unless the entry is among those evicted |
| TreeCache.InvalidateKeepsConsistent | internal/collector/trees.go:128-138 | an invalidation keeps counter, keys and bound |
| TreeCache.KeyIsInjective | internal/collector/trees.go:40 | keys determine host and snapshot if and only if no host name extends another by a bar |
| TreeCache.InvalidationIsExact | internal/collector/trees.go:128-138 | invalidating a host hits that host's entries alone if and only if no host name extends another by a bar |
| TreeCache.NamesWithoutBarAreSeparate | internal/collector/trees.go:40 | names without a bar satisfy that condition |
| TreeProtocol.StepKeepsInv | internal/collector/trees.go:44-138 | every step of every call, and every invalidation, keeps the invariant: counter, keys, bound, one loader per key, no entry under a key being loaded, waiters wait for a live load |
| TreeProtocol.ReachableStatesAreSound | internal/collector/trees.go:44-138 | the invariant holds in every state of every run; in particular a publication never overwrites |
| TreeProtocol.OneLoaderPerKey | internal/collector/trees.go:64-87 | in every reachable state two calls loading the same key are the same call |
| TreeProtocol.EntriesStay | internal/collector/trees.go:96-138 | an entry never changes, and disappears only by its host's invalidation or by a publication for which there was no room |
| TreeProtocol.EvictionWasNeeded | internal/collector/trees.go:110-111 | nothing is evicted while the newcomer fits |
| TreeProtocol.SomeCallCanStep | internal/collector/trees.go:64-87 | no deadlock: as long as a call has not returned, some call already inside can step |
| TreeProtocol.ReachableStatesAreFaithful | internal/collector/trees.go:44-106 | in every reachable state each entry and each tree in a call's hands is the tree of its own host and snapshot |
| TreeProtocol.CacheIsTransparent | internal/collector/trees.go:44-106 | a tree returned for an immutable snapshot, by hit, wait or load, is the remote tree of that host and snapshot, and its children of any directory are the sorted filter of the remote nodes |
| TreeProtocol.WaiterMayMissGoodLoad | internal/collector/trees.go:66-75 | a run in which the loader returns the tree and the waiter fails |
| TreeWaiters.EveryRunHasSteps | internal/collector/trees.go:44-138 | naming the steps of a run loses none of the runs |
| TreeWaiters.KeyAfterStep | internal/collector/trees.go:96-138 | a step publishes a key where there was nothing, removes it or leaves it alone; an invalidation of its host always removes it, and otherwise only a publication without room can |
| TreeWaiters.LastPublication | internal/collector/trees.go:96-138 | once published, a key holds the tree of its last publication, and is absent if and only if it has been removed since |
| TreeWaiters.SecondLook | internal/collector/trees.go:69-75 | after a publication of a key, any second look at it finds nothing if and only if the key was removed and not published again; otherwise the last published tree, and that of the first publication if no step since threatened the key |
| TreeWaiters.LoadedIsPublished | internal/collector/trees.go:77-105 | a tree that a loader with waiters returns has been published by it under its key |
| TreeWaiters.WaiterOfGoodLoad | internal/collector/trees.go:66-75 | a waiter whose loader returned a tree gets one under the very same conditions: it fails if and only if the key was removed and not published again, and gets its loader's tree if nothing threatened the key |
| TreeWaiters.LookTells | internal/collector/trees.go:58-80 | in every reachable state a first look returns the entry if there is one, waits for the call loading the key if there is one, and otherwise loads |
| TreeWaiters.FetchedIsReturned | internal/collector/trees.go:82-105 | a call whose fetch succeeded returns that very tree whatever happens to the cache, and one whose fetch failed an error |
| TreeUsage.UsedIsLastUse | internal/collector/trees.go:58-101 | in every state of every run the time kept for an entry is that of the last step that consulted it while there or published it |
| TreeUsage.EvictsLeastRecentlyUsed | internal/collector/trees.go:110-125 | an entry that a publication evicts was last consulted or published no later than any entry that stays |
| TreeUsage.EvictsNoMoreThanNeeded | internal/collector/trees.go:110-125 | with the last evicted entry kept, the nodes would exceed 800,000 |
| TreeUsage.ClockIsMonotone | internal/collector/trees.go:60-99 | later steps have later times, so the order of times is the order of use |
| TreeIndex.FetchTree | internal/fleet/tree.go:35-76 | an index of exactly the nodes of the answer for that snapshot, the latest for an empty name, each directory sorted; nothing if and only if the command fails or its output is unreadable |
| TreeIndex.Collect | internal/fleet/tree.go:48-60 | grouping puts every node under its parent and counts them all |
| TreeIndex.SortAll | internal/fleet/tree.go:67-74 | every group becomes a sorted permutation of itself |
| TreeIndex.List | internal/fleet/fleet.go:356-391 | the nodes of the answer for that snapshot and path, the latest and the root for empty ones, as a sorted permutation; what was read is returned with a scanner error |
| TreeIndex.EveryNodeInOneBucket | internal/fleet/tree.go:57-59 | a node occurs under its parent as often as in the input, and nowhere else |
| TreeIndex.SizesSumToCount | internal/fleet/tree.go:48-60 | the sizes of the directories sum to Count |
| TreeIndex.ChildrenIsSortedFilter | internal/fleet/tree.go:27-32 | the children of a directory are a directories-first sorted permutation of the nodes whose parent is its cleaned path |
| TreeIndex.DirectoriesFirstThenNames | internal/fleet/tree.go:67-74 | in a sorted list no directory comes after another kind of entry, and the names of each kind ascend |
| TreeIndex.NodesAreTheNodeLines | internal/fleet/tree.go:48-60 | a node is kept as often as a line decodes to it, other records never |
| Ordering.LessIsLexicographic | internal/fleet/tree.go:72 | the order of names is the lexicographic one |
| TreeIndex.SameDirectoryUnlessEmpty | internal/collector/collector.go:480-508 | tree and fallback address the same directory for all nodes if and only if the path is not empty |
| TreeIndex.ListingIsDetermined | internal/fleet/fleet.go:384-389 | sorting has one possible result if and only if nodes of the same kind and name are equal |
| TreeIndex.SortIsUnique | internal/fleet/tree.go:67-74 | two sorted permutations of nodes with determined keys are the same sequence |
| TreeIndex.SharedKeyLeavesChoice | internal/fleet/fleet.go:384-389 | two different nodes of the same kind and name give two different legal results |
| TreeIndex.BrowsePathsAgree | internal/collector/collector.go:496-507 | for a non-empty path and determined keys the fallback listing is the very sequence the tree gives |
| Paths.CleanTwice | internal/fleet/tree.go:27-32 | cleaning a path is idempotent |
| Paths.DotsDisappear | internal/fleet/tree.go:27-32 | a trailing dot segment or slash does not change the cleaned path |
| Paths.UpTakesBack | internal/fleet/tree.go:27-32 | a segment followed by two dots does not change the cleaned path |
| Paths.UpFromNothing | internal/fleet/tree.go:27-32 | above the root is the root, and a relative path keeps its leading two dots |
| Paths.DirOfRooted | internal/fleet/tree.go:57-58 | the parent of an absolute clean path drops its last segment |
| Crumbs.Crumbs | internal/web/server.go:509-520 | the trail is the root followed by one crumb per non-empty segment, each path the segments so far |
| Crumbs.TrailTells | internal/web/server.go:510-518 | the first crumb is the root, and each next one is named after its segment and lies under the previous one |
| Crumbs.EachCrumbIsParentOfNext | internal/web/server.go:512-518 | without dot segments each crumb is the parent directory of the next |
| Crumbs.LastCrumbIsCleanPath | internal/web/server.go:512-518 | the last crumb is the cleaned absolute path if and only if there is no dot segment |
| Crumbs.EachCrumbIsListed | internal/web/server.go:509-520 | in a parent-closed tree that holds the path, every next crumb is listed among the children of the previous one |
| Pool.ConnPool.Find | internal/fleet/pool.go:50-57 | the first locked region returns the live connection of the key, refreshed, or nothing |
| Pool.ConnPool.Install | internal/fleet/pool.go:66-85 | the second one keeps a live connection dialled meanwhile and closes the loser's, or installs the new one with an empty semaphore |
| Pool.ConnPool.MarkDead | internal/fleet/pool.go:78-83 | the watcher marks its own connection and no other |
| Pool.ConnPool.Drop | internal/fleet/pool.go:88-97 | the key's connection is dead, closed and forgotten |
| Pool.ConnPool.Reap | internal/fleet/pool.go:100-109 | exactly the dead and the long idle connections are closed and forgotten |
| Pool.ConnPool.Close | internal/fleet/pool.go:112-119 | every connection is closed and forgotten |
| Pool.ConnPool.TryAcquire | internal/fleet/fleet.go:138-143 | a token is taken if and only if fewer than four are held |
| Pool.ConnPool.Release | internal/fleet/fleet.go:140 | a token is given back |
| PoolProtocol.StepKeepsTokens | internal/fleet/fleet.go:131-157 | every step keeps the tokens held on a connection equal to the calls between acquire and release on it, at most four, retry included |
| PoolProtocol.StepKeepsOwned | internal/fleet/pool.go:47-119 | every step keeps each open client pending in one call, in the table, or already down |
| PoolProtocol.ReachableStatesAreSound | internal/fleet/pool.go:47-119 | ownership, tables and tokens are right in every state of every interleaving of get, run, drop, reap, Close and loss |
| PoolProtocol.EveryOpenClientIsOwned | internal/fleet/pool.go:47-119 | an open client is the live one of its key's table entry, or in the hands of exactly the call that dialled it: none leaks |
| PoolProtocol.OneOpenConnectionPerKey | internal/fleet/pool.go:66-84 | two open installed connections of one key are the same |
| PoolGets.FindHandsOutTheLiveEntry | internal/fleet/pool.go:50-57 | the first region goes on to dial if and only if the key has no entry or one marked dead; otherwise it hands out that entry |
| PoolGets.InstallKeepsOrReplaces | internal/fleet/pool.go:66-84 | the second keeps a live entry and closes the new client; over an absent or dead one the new client becomes the entry |
| PoolGets.OnlyLiveConnectionsAreHandedOut | internal/fleet/pool.go:47-85 | in every reachable state what get hands out is the entry of its key, not marked dead, and bears the time of this get |
| PoolGets.MarkedIsNeverHandedOut | internal/fleet/pool.go:77-97 | once the watcher or a drop has marked a connection, no later get hands it out |
| PoolGets.LastIsLastGet | internal/fleet/pool.go:50-75 | in every state of every run the time by which reap judges a connection is that of the last get that handed it out |
| PoolGets.DropForgets | internal/fleet/pool.go:88-97 | after a drop the key has no entry, what it had is dead and closed, and nothing else changes |
| PoolGets.ReapKeepsTheFresh | internal/fleet/pool.go:100-109 | an entry survives reap if and only if it is not dead and its last get is at most ten minutes old; one that goes is closed |
| PoolGets.CloseEmptiesTheTable | internal/fleet/pool.go:112-119 | after Close the table is empty and every connection ever installed is down; only clients still being dialled are left to their calls |
| PoolSessions.SessionsBoundedButForRetries | internal/fleet/fleet.go:137-156 | the sessions on a connection are at most four more than the retries on it |
| PoolRuns.SessionsReachBound | internal/fleet/fleet.go:145-156 | for every r a run that ends with four and r sessions on one connection, r of them retries: the bound is reached |
| PoolRuns.FiveSessionsOnOneConnection | internal/fleet/fleet.go:145-156 | in particular a run that ends with five |
| PoolRuns.ReapClosesBusyConnection | internal/fleet/pool.go:100-109 | a run in which reap closes the connection of a running command |
| PoolSessions.DropTakesDownOther | internal/fleet/fleet.go:145-149 | in every reachable state the drop of a retry forgets, or closes, a connection other than the one whose token it holds if and only if the table holds another one, or another open one, for its key |
| PoolRuns.DropTakesDownHealthy | internal/fleet/fleet.go:145-149 | a run in which the drop of a retry closes the connection on which another call's command runs |
| PoolSessions.ReapEndsIdleSessions | internal/fleet/pool.go:100-109 | reap closes an open connection with a running command if and only if its last get is older than ten minutes |
| History.HealthStore.RecordHealth | internal/store/store.go:457-464 | the row of that host and second is written or replaced, no other |
| History.HealthStore.PurgeHealthHistory | internal/store/store.go:467-471 | exactly the rows older than the horizon disappear |
| History.Series | internal/store/store.go:485-504 | strictly increasing in time, nothing before `since` |
| History.SeriesHoldsRows | internal/store/store.go:485-504 | a point is in the series if and only if it is a row of that host from `since` on |
| History.PurgeInvisible | internal/store/store.go:467-471 | after any writes and purges, a row from the horizon on is there, and the same, if and only if it would be without purges |
| History.RetainedSeriesIsFull | internal/store/store.go:467-504 | hence any series that starts no earlier than the horizon is that of the never-purged history |
| Frieze.WindowByKey | internal/collector/timeline.go:31-38 | the window of that key if there is one, else the 24-hour one |
| Frieze.IntervalsFallOnHours | internal/collector/timeline.go:121-122 | although Go truncates from year 1, intervals end on multiples of the step and the current instant is in the last one |
| Frieze.QuotInterval | internal/collector/timeline.go:159-162 | truncating division gives index i if and only if the point is in interval i, the first one reaching almost a step further back |
| Frieze.FillCells | internal/collector/timeline.go:152-174 | after the loop every cell is the summary of the points of its own interval |
| Frieze.OneMorePoint | internal/collector/timeline.go:158-173 | one more point darkens its own cell as the loop body does, and no other |
| Frieze.WorstIs | internal/collector/timeline.go:165-168 | the worst rank bounds every point and is reached by one |
| Frieze.CauseIs | internal/collector/timeline.go:167-173 | the title quotes the first point that reached the worst rank |
| Frieze.CellCoversInterval | internal/collector/timeline.go:148-162 | for a series that starts at the window, cell i covers exactly its interval, the first one included |
| Frieze.CellIsWorst | internal/collector/timeline.go:158-173 | a cell is at least as bad as every point of its interval and, unless unknown, has the state of one of them |
| Frieze.CellTells | internal/collector/timeline.go:152-174 | a cell is crit if its interval has a critical point, otherwise warn, ok or unknown in that order, and its samples are the number of points there |
| Frieze.CellIgnoresOrder | internal/collector/timeline.go:158-173 | state and samples of a cell are the same for every permutation of the points |
| Frieze.SamplesAreConserved | internal/collector/timeline.go:158-164 | the samples of the cells sum to the number of points in the window |
| Frieze.Tally | internal/collector/timeline.go:175-186 | the four counts, which sum to the number of cells |
| Frieze.MakeRow | internal/collector/timeline.go:152-190 | the row of a host: its cells, its counts summing to the number of intervals, a coverage between 0 and 100 |
| Frieze.RowCounts | internal/collector/timeline.go:175-189 | the counts of a row are the numbers of its cells in each state, the gaps are the others, the coverage is the share of the former |
| Episodes.Extract | internal/collector/timeline.go:219-252 | one pass returns exactly the episodes of the maximal runs of points that are neither ok nor unknown, in order, complete and separated by sane points |
| Episodes.RunGrows | internal/collector/timeline.go:236-243 | a worsening episode keeps its start, becomes critical and quotes from its first critical point on |
| Episodes.MaximalRunIsListed | internal/collector/timeline.go:219-252 | no maximal run is missing |
| Episodes.RunsAreDetermined | internal/collector/timeline.go:219-252 | the list of runs is unique |
| Episodes.EpisodeBounds | internal/collector/timeline.go:219-252 | over a series every episode starts at a point out of the normal that none precedes; a past one ends at the next sane point, one that goes on is last, ends now and no sane point follows; duration is the difference; it is crit if and only if it spans a critical point, otherwise of its first point's state |
| Episodes.EveryStartIsListed | internal/collector/timeline.go:232-235 | every point out of the normal that none precedes starts an episode |
| Episodes.EpisodesAreDisjoint | internal/collector/timeline.go:222-250 | episodes follow each other in time without overlap, and only the last may be going on |
| Episodes.PointIsInEpisode | internal/collector/timeline.go:222-250 | every point out of the normal is inside an episode of its host, critical if the point is, and no milder than it if all states are ok, warn or crit |
| Episodes.CritEpisodeHasCrit | internal/collector/timeline.go:236-240 | an episode is critical if and only if one of its points is |
| Episodes.CauseIsFirstText | internal/collector/timeline.go:233-243 | the cause is the first non-empty summary from the first critical point on, from the start if none is critical |
| Bars.FillSlots | internal/collector/timeline.go:274-283 | every hour holds the worst state observed in it, "" if none |
| Bars.Durations | internal/collector/timeline.go:285-294 | the three durations count the hours in each state |
| Bars.PercentBracket | internal/collector/timeline.go:299-300 | whatever the rounding, a percentage is the exact one rounded down, except that an exact whole percentage may lose one; 0 and 100 are exact |
| Bars.SharesSumTo100 | internal/collector/timeline.go:297-301 | the healthy share is never too low, at most two points too high, and never negative |
| Bars.MakeBar | internal/collector/timeline.go:284-306 | measured hours never exceed the total, and if there are any the three percentages are in 0..100 and sum to 100 |
| Bars.BarOf | internal/collector/timeline.go:256-306 | a host's bar, over the 336 hours that end with the current one |
| PageLaws.SlotTells | internal/collector/timeline.go:274-283 | an hour is crit if it has a critical point, otherwise warn or ok in that order, otherwise empty |
| PageLaws.BarCounts | internal/collector/timeline.go:284-295 | the durations are the numbers of hours in each state, and their sum is what was measured |
| HistoryPage.Timeline | internal/collector/timeline.go:144-211 | one row and the episodes of every enabled host, from that host's series since the start of the window; rows in stable order of severity then name, episodes most recent first |
| HistoryPage.HostBars | internal/collector/timeline.go:263-315 | one bar per enabled host, in stable order of severity |
| HistoryPage.OrdersAreWeak | internal/collector/timeline.go:199-210 | the three comparisons are strict weak orders, as sorting demands |
| HistoryPage.RowsInOrder | internal/collector/timeline.go:202-210 | rows come by falling critical cells, then falling cells to watch, then by name |
| HistoryPage.BarsInOrder | internal/collector/timeline.go:309-314 | bars come by falling critical share, then falling share to watch |
| HistoryPage.EpisodesInOrder | internal/collector/timeline.go:199-201 | episodes come with the most recent start first |
| HistoryPage.ConcatHas | internal/collector/timeline.go:191 | the page's episodes are exactly those of its hosts |
| Display.StableSortsAgree | internal/collector/timeline.go:202-210 | a stable sort has one result |
| Display.SortIsUnique | internal/collector/timeline.go:199-201 | an unstable one has one result if elements that tie are equal |
| PageLaws.WindowBounds | internal/collector/timeline.go:25-29 | every window starts on an hour, after the start of the bars, less than its duration ago |
| PageLaws.SlotIsWorst | internal/collector/timeline.go:272-283 | an hour is at least as bad as each of its points and has the state of one of them |
| PageLaws.CellIsWorstOfSlots | internal/collector/timeline.go:121-173 | granularity agreement: a cell of 1, 4 or 6 hours is at least as bad as every hourly slot it covers and has the state of one of them |
| PageLaws.HourKeyIsFloor | internal/store/store.go:539 | the query's hour is the start of the hour if and only if the time is not before 1970 or falls on an hour |
| PageLaws.SlotAgreesWithHourly | internal/store/store.go:537-573 | each hourly slot has the state of the store's hourly query for that hour, the empty slot standing for a missing or unknown hour |
| PageLaws.HourlySamples | internal/store/store.go:537-573 | the hourly query answers exactly for the hours that have a row, with the number of their rows |
| PageLaws.RetentionIsInvisible | internal/collector/collector.go:130 | for every run of writes and purges the page of every window has the same rows and bars in the same order, and the same episodes, as that of the never-purged history; in the same order too if no two start in the same second |
| PageLaws.ShorterRetentionShows | internal/collector/collector.go:130 | a retention cannot be seen in a window if and only if it is at least the window's duration less one second |
| Sante.Fleet | internal/collector/collector.go:275-316 | one view per host, ok exactly when reachable and fresh, unknown exactly when never reached, nobackup exactly when the repository is empty |
| Sante.ViewTells | internal/collector/collector.go:286-312 | never reached is unknown, without snapshot is nobackup, and otherwise the host is overdue if and only if its last snapshot is older than it promises |
| Sante.CheckOfIsLast | internal/collector/collector.go:280-283 | a host's check is the last one listed for it |
| Sante.Sante.Evaluate | internal/collector/sante.go:37-52 | alerts are appended, the one for late, missing or unseen backups first and critical |
| Sante.Sante.Tally | internal/collector/sante.go:286-292 | every alert is counted once, as critical or as warning |
| Sante.CritsUpTo | internal/collector/sante.go:286-292 | the critical count is the number of critical alerts |
| Sante.Sante.Summary | internal/collector/sante.go:324-336 | the first three subjects, joined |
| Sante.SummaryTells | internal/collector/sante.go:324-336 | nothing for no alert, and otherwise up to three subjects with a middle dot between them |
| Sante.SanteFleet | internal/collector/sante.go:269-294 | one evaluated and counted record per view |
| Sante.CombinedIsState | internal/collector/sante.go:343-359 | for a host with a health record the fleet page's state is the recorded state; it is critical exactly when the backups are wrong or an alert is critical, ok exactly when there is no alert |
| Sante.UnknownHealthHides | internal/collector/sante.go:348-350 | for a host without a health record the two differ exactly when the backups are fine and there is an alert |
| Sante.RecordHealthSnapshot | internal/collector/collector.go:137-148 | one pass writes the evaluation of every view, disabled hosts included |
| Sante.OneRowPerHost | internal/collector/collector.go:143-147 | with distinct names each host's row of that second holds its own evaluation and every other row is untouched |
| Config.EnabledHas | internal/collector/timeline.go:144-147 | the page shows exactly the hosts that are not disabled |
| Outage.RowSurvives | internal/store/store.go:457-471 | a row younger than the horizon survives all later writes and purges until its own second is rewritten |
| Outage.RowShows | internal/collector/timeline.go:148-252 | any row in a window has a cell and an hour at least as bad as itself and, if out of the normal, lies inside an episode as severe |
| Outage.NoMissedOutage | internal/collector/collector.go:137-148 | end to end: if a host's backups were not fine when its row was written, the fleet page is critical as well as the row, which survives and shows as a critical cell, hour and episode in every window that still holds it |
| Outage.PageShowsOutage | internal/collector/timeline.go:144-192 | an enabled host with a critical row in the window has a row with a critical cell, a bar with critical time and a critical episode around it on the page |
| Actions.ActionDesk.Claim | internal/collector/collector.go:546-571 | a request is refused for an unknown host, an unknown verb or a busy host, naming the verb in progress, and otherwise claims the host |
| Actions.ActionDesk.Clear | internal/collector/collector.go:574-578 | the worker's end frees its host |
| Actions.BusyReportsTheOneAtWork | internal/collector/collector.go:611-616 | in every reachable state Busy reports a verb if and only if exactly one call is at work on the host, and then that call's; none if and only if no call is |
| Actions.StepKeepsInv | internal/collector/collector.go:546-608 | every step of every request and worker keeps ownership of `running` and the alternation of the audit trail |
| Actions.ReachableStatesAreSound | internal/collector/collector.go:546-608 | the invariant holds in every state of every run |
| Actions.OneOperationPerHost | internal/collector/collector.go:562-569 | two active operations on a host are the same one, and `running` names its verb |
| Actions.ClaimedIff | internal/collector/collector.go:546-569 | in every reachable state a request is taken if and only if its host is known, its verb is one of the four and no call is at work on the host; a refused one changes nothing |
| Actions.OutcomeIsLogged | internal/collector/collector.go:597-602 | over runs, what is logged at the end is what the operation came to, for the actor, verb and host of the request |
| Actions.AuditTrailMatches | internal/collector/collector.go:571-602 | a host's entries alternate between a request and the answer to that very request, in equal numbers whenever it is not running |
| Actions.BusyMeansBusy | internal/collector/collector.go:563-567 | a refusal as busy names the verb of another operation that is really active |
| Backoff.BackoffTable.Due | internal/collector/collector.go:79-84 | due when not failing or strictly after the next try |
| Backoff.BackoffTable.NoteFailure | internal/collector/collector.go:86-101 | one more failure, and the next try after the capped delay |
| Backoff.BackoffTable.NoteSuccess | internal/collector/collector.go:103-107 | the host is no longer failing |
| Backoff.DelayIsCapped | internal/collector/collector.go:95-98 | the 64-bit delay is the interval doubled per failure up to 8 times, capped at 6 hours, if and only if the product does not overflow or wraps to 6 hours or more |
| Backoff.OverflowingInterval | internal/collector/collector.go:95-98 | an interval for which it is negative |
| Backoff.DelaysGrow | internal/collector/collector.go:94-100 | delays never decrease and never exceed the cap |
| Backoff.FailingHostIsTracked | internal/collector/collector.go:150-168 | through any run of cycles the table holds the number of failures of a host that always fails and when it last failed |
| Backoff.AttemptedIff | internal/collector/collector.go:79-107 | for any host a visit is an attempt if and only if it has not failed since its last success, or the visit is later than the end of the last failure by more than the delay of the number of failures since that success |
| Backoff.FirstVisitIsAttempt | internal/collector/collector.go:79-84 | the first visit of every host is an attempt |
| Backoff.VisitAfterSuccessIsAttempt | internal/collector/collector.go:103-107 | so is the first visit after a success |
| Backoff.AttemptsAreSpaced | internal/collector/collector.go:150-168 | attempt j comes after attempt i by more than the sum of the delays between them |
| Backoff.AnyAttemptsSpan | internal/collector/collector.go:150-168 | any n+1 attempts in a row span more than the first n delays |
| Backoff.AttemptsInWindow | internal/collector/collector.go:150-168 | hence a bounded number of attempts in any window |
| Backoff.FewAttemptsInSixHours | internal/config/config.go:59-63 | with the default interval, no more than four attempts in any six hours |
| Backoff.DueAgainAfterCap | internal/collector/collector.go:79-84 | a failing host is due again at any time later than six hours after its last failure |
| Limiter.AttemptLimiter.Allow | internal/auth/auth.go:168-185 | the answer and the new table are those of the pruning step, and other keys keep their attempts |
| Limiter.AttemptLimiter.Reset | internal/auth/auth.go:187-191 | the key's attempts are forgotten, no other's |
| Limiter.PruneInPlace | internal/auth/auth.go:173-178 | filtering into the array being read keeps exactly the attempts after the cutoff, in order: no unread one is overwritten |
| Limiter.PrunedAgrees | internal/auth/auth.go:168-185 | after any run the pruned list and the full history of accepted attempts agree on the window |
| Limiter.AllowDecidesByFullHistory | internal/auth/auth.go:168-191 | Allow answers yes if and only if fewer than max attempts accepted since the last reset lie strictly after now less the window |
| Limiter.AllowCountsRecentAttempts | internal/auth/auth.go:168-191 | Allow answers yes if and only if fewer than max earlier operations were accepted attempts on the key, strictly after now less the window, with no reset of the key since |
| Limiter.RefusedOnlyWhenFull | internal/auth/auth.go:168-185 | an attempt is refused if and only if the half-open window that ends with it already holds max accepted attempts |
| Limiter.AfterKeeps | internal/auth/auth.go:173-178 | the filter keeps the times strictly after the cutoff, each as often as it occurs, and no others |
| Limiter.AfterKeepsOrder | internal/auth/auth.go:173-178 | and in their order |
| Limiter.WithinIs | internal/auth/auth.go:168-185 | the count of a window is the number of attempts in it |
| Limiter.WindowNeverOverfull | internal/auth/auth.go:168-191 | between resets no half-open interval of the window's length holds more than max accepted attempts |
| Itoa.Itoa | internal/collector/sante.go:235-255 | the text of a 64-bit integer, written backwards in 20 bytes without leaving them |
| Itoa.WriteDigits | internal/collector/sante.go:243-249 | the digits end up right-aligned in the buffer, with room left for a sign |
| Itoa.RoundTrip | internal/collector/sante.go:235-255 | parsing the text gives the integer back if and only if it is not the least one |
| Itoa.DigitAt | internal/collector/sante.go:245-249 | the k-th character from the end is the decimal digit of ten to the k |
| Itoa.NoLeadingZero | internal/collector/sante.go:235-255 | the text has no leading zero, but for 0 itself |
| Qr.Terminal | internal/qr/qr.go:38-69 | the text of the page of half blocks of the grid with its margin |
| Qr.Dimensions | internal/qr/qr.go:73-79 | the columns and rows announced are those of the page printed |
| Qr.ReadPageText | internal/qr/qr.go:51-69 | a decoder of the escape sequences reads every page back |
| Qr.TerminalRoundTrip | internal/qr/qr.go:38-69 | decoding what is printed gives back every module, the two-module light margin, and light padding below an odd height |

## Left out

- HistoryPage.Timeline: the axis and the header fields (Depuis, Mesures, Tronquee, which describe the table as it is, purges included) are not modelled.
- Sante.SanteFleet: the sort by gravity for display is left out; recording in another order gives the same table, since host names are distinct.
- Sante.Fleet: of a view only the name and the state are modelled; age, sizes, snapshot and error text are for display.
- Errors of the database, of the network and of remote commands are outcomes of a step where a protocol depends on them, and absent elsewhere (HealthSeries, LatestChecks, Timeline).
- The titles of cells beyond state and cause, durations as text, and every other display format.
- Sante.Sante.Evaluate: the alerts drawn from a host's report and from the site probe are an arbitrary sequence, because each threshold and each wording is settled by reading one branch; only the alert for the state of the backups is modelled.
- PageLaws.SlotAgreesWithHourly: the hourly query's maxima of counts and its summary (arbitrary among equals) are not modelled, the program itself never calling it; before 1970 the query groups other seconds, see `PageLaws.HourKeyIsFloor`.
- PageLaws.CellIsWorstOfSlots: for points not after `now`, which is what RecordHealth writes.
- History.Series: the meaning of the query, not its text; the rows come sorted by the database.
- Bars.MakeBar: for up to a hundred million hours, the code having 336; durations are in seconds instead of nanoseconds, and both are exact in binary64.
- TreeProtocol.CacheIsTransparent: for snapshots that are immutable, so neither "" nor "latest", and host names that do not extend one another by a bar.
- TreeIndex.FetchTree: the line-length limits of the two scanners (8 MB and 4 MB) are one condition "unreadable"; JSON decoding is not modelled, a line is a node, another record or garbage.
- TreeIndex.SortAll: a sort is any that gives a sorted permutation, since `sort.Slice` is not stable.
- Times below a second in the history, saturation of differences beyond 292 years, and the build time of a tree.
- Cancellation of a call by its context, except where `run` waits for a token; the limit of four concurrent collections.
- Audit entries written by the web server (refusals), the entries of users and sessions, and all other queries of the audit table.
- SSH dialling, handshake, host keys and keep-alive; HTTP handlers, templates and cookies; passwords, one-time codes and tokens; YAML, CIDR and JSON parsing; the QR encoding itself (any square grid); the small answer cache.
