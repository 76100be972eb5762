# Golimit in Dafny

Golimit is a distributed rate limiter. Every node keeps one counter per key and per clock-aligned window, decides
locally whether a call is allowed, and tells its peers what it counted in coalesced batches. This project models
that machinery and proves what it guarantees over whole runs, on one node, among threads, and across nodes.

| module | models |
|---|---|
| `Base`, `Rounding` | 32- and 64-bit wrap-around, finite sums, the per-second ceiling and its float64 computation |
| `Counter` | one key's entry: expiry computation, restart of an expired entry, counting, the answer |
| `KeyBuckets` | `KeyEntry` and `KeyBucket` as objects updated in place |
| `Tables` | a node's state as one flat map; batches; the collector |
| `History` | runs of one key on one node: expiry history, offline log, how much is allowed, peak averaging |
| `Projection`, `NodeHistory` | a node's run over all keys, alone or in a cluster, seen from one key |
| `Locks` | any number of threads inside `Incr` and `Sync` at once, one step per lock or clock access |
| `Linearization`, `Punctuality` | exactly when those threads follow the sequential counter |
| `ExpiryReads` | the expiry a call answers with, which it reads after its critical section |
| `Grants` | how much the threads are granted in each window |
| `Delays` | schedules in which delayed callers pass the limit, and exactly when there are any |
| `Sharding`, `Stores` | the sharded store as objects, refining the flat map |
| `Worker` | the sync worker: merging, flushing, and its loop |
| `Cluster`, `Replication` | N nodes, channels, workers, and messages that may be reordered or lost |
| `Forcing` | what a node announces, and that the call that crosses the limit is announced at once |
| `Bounds` | 32-bit runs of the cluster equal unbounded ones |
| `Overshoot` | how far the calls a cluster allows in one window can exceed the limit |
| `Witnesses` | runs that reach the overshoot bound, and that mix windows at a boundary instant |

The layers share their functions. `Stores.Store` and `Worker.SyncWorker` are proved against `Tables.Incr`,
`Tables.SyncKeys`, `Tables.Sweep` and `Worker.Work` in 32-bit arithmetic; the cluster is built from those same functions,
with the arithmetic as a parameter (`Base.Arith`); `Bounds.NoWrapAnywhere` shows that the 32-bit cluster and the
unbounded one go through the same states; and `Linearization` shows when concurrent callers of one bucket see the
atomic counter the other layers assume. A batch on the wire is a map, because
`Tables.DeliveryOrderIrrelevant` shows the order in which a worker walks its map does not matter.

Assumptions: the clock starts at or after 0, never goes backwards, and is common to all nodes; the node set is fixed;
a message carries the values a batch had when it was sent. Requirements on a run of the cluster (one window per key, one
limit per key, and so on) are spelled out as `Replication.Requirement` and appear in each lemma that needs them.

Five results describe where the program does less than one might expect, and exactly when.

- Concurrent callers are granted no more than the limit in any window as long as no call restarts an entry under an expiry
  that is past already (`Grants.ConcurrentCallsWithinLimit`), whatever windows they use and whenever remote commands arrive.
  A caller whose window is over when it reaches its critical section does restart it so, and so does the next: callers
  who start at some time can be granted more than the limit exactly once the window of that time is over
  (`Delays.LimitFailsExactly`), and any number of them are then all granted (`Delays.DelayedCallersAllGranted`).
- An entry follows the sequential counter, as far as any later call or command can tell, exactly when each critical section
  that starts a count starts it under the expiry current at that moment, and no remote command that has just expired adds to
  a live entry (`Linearization.MirrorsExactly`, and for one section `Linearization.CallSectionExactly` and
  `Linearization.SyncSectionExactly`). Runs in which callers reach their critical section in the window they read the clock
  in are like that (`Punctuality.TimelyIsPunctual`). Then calls are blocked, and syncs forced, as one after the other
  (`Linearization.Linearizable`).
- A call reads the expiry it answers with after leaving its critical section. While entries only move
  to later expiries, it is the one it counted under exactly when nobody moved the entry's expiry in between
  (`ExpiryReads.AnswerExactly`); otherwise the call names, and is announced to peers under, a later one
  (`Delays.OvertakenCallNamesLaterWindow`).
- At the very instant a window ends its commands are still unexpired, and can be counted into the next window. That can
  happen at a time exactly when a window ends there (`Witnesses.MixingExactlyAtBoundaries`).
- Masking the hash with `buckets - 1` uses every bucket exactly when the bucket count is a power of two
  (`Sharding.EveryBucketReachable`), which the default of 1000 is not (`Sharding.DefaultMissesBuckets`).

## Model

| member | source | states |
|---|---|---|
| Counter.GenExpiryIsNextBoundary | store/bucket/keybucket.go:96-102 | an entry expires at the one multiple of its window that lies after now and at most one window away |
| Counter.NoWindowLastsAnInstant | store/bucket/keybucket.go:96-99 | without a window an entry is live at the instant it is made and at no later one |
| Counter.GenExpiryFitsInt64 | store/bucket/keybucket.go:96-102 | the int64 computation, with Go's `%`, equals the exact one for every non-negative time that leaves room for one window |
| Counter.TruncatedModLeavesMultiple | store/bucket/keybucket.go:101 | what Go's `%` leaves out of its dividend, of either sign, is a whole number of divisors |
| Counter.SharedExactlyWhenCounted | store/bucket/keybucket.go:51-67 | the answer makes the store announce an increment exactly when it was added to the entry, whatever the counts, even across wrap-around |
| KeyBuckets.KeyEntry.constructor | store/bucket/keyentry.go:29-33 | a new entry holds the given count and expiry |
| KeyBuckets.KeyEntry.ReInit | store/bucket/keyentry.go:35-40 | restarting an entry replaces its expiry, count and clock |
| KeyBuckets.KeyEntry.Incr | store/bucket/keyentry.go:50-53 | adds in int32 and returns the new total, leaving the expiry alone |
| KeyBuckets.KeyEntry.Sync | store/bucket/keyentry.go:55-57 | adds a peer's count in int32, leaving the expiry alone |
| KeyBuckets.KeyBucket.constructor | store/bucket/keybucket.go:16-20 | a bucket starts empty |
| KeyBuckets.KeyBucket.Obtain | store/bucket/keybucket.go:33-49 | a call works on its key's entry, created or restarted at zero when missing or expired, and on no other |
| KeyBuckets.KeyBucket.CountOn | store/bucket/keybucket.go:51-67 | counting and answering change the obtained entry only; a call is blocked exactly when the total is past the limit, and then asks for a sync exactly when it was counted |
| KeyBuckets.KeyBucket.Incr | store/bucket/keybucket.go:29-68 | the in-place bucket does what the flat-map call does, and its entry and answer are those of the key's live entry, or of a fresh one of the current window, with the count added unless the total had passed the limit |
| KeyBuckets.KeyBucket.Sync | store/bucket/keybucket.go:70-90 | the in-place bucket does exactly what one delivered command does to the flat map; an expired command changes nothing |
| KeyBuckets.KeyBucket.Collect | store/store.go:439-451 | one locked pass looks at every entry once, each with clock readings of its own, in whatever order the map is walked, and removes exactly those collectable when looked at |
| Tables.IncrInFull | store/bucket/keybucket.go:45-67 | what the flat-map call leaves and answers, case by case |
| Tables.SyncInFull | store/bucket/keybucket.go:70-90 | what a delivered command leaves, case by case |
| Tables.SweepIsExact | store/store.go:438-451 | a pass keeps every entry live or within its grace period, if any, when looked at, unchanged, and nothing else, wherever in the pass that moment was |
| Tables.CollectIsExact | store/store.go:438-451 | visiting some keys at one moment removes exactly those of them past their grace period |
| Tables.PassUnobservable | store/store.go:433-456 | after a pass, however its readings are spread over time, every later call is answered as if there had been none |
| Tables.DeliveryOrderIrrelevant | store/cluster.go:202-210 | every listing of a flushed batch leaves the receiver in the same state |
| Tables.SendersCommute | store/cluster.go:202-210 | batches of two senders commute when they and the receiver's live entry name one expiry per key |
| Tables.CollectionUnobservable | store/store.go:433-456 | a store collected at arbitrary moments, with any grace, answers every later call as one that never was |
| History.ExpiryHistory | store/bucket/keybucket.go:33-49 | a live entry keeps its expiry, re-creation moves it strictly later, and between re-creations the count never falls |
| History.BlockIsSticky | store/bucket/keybucket.go:51-67 | within one lifetime, after a blocked call nothing is allowed and no sync is forced |
| History.DecisionMatchesLog | store/bucket/keybucket.go:45-67 | a call is allowed exactly when the counts of all calls and unexpired remote commands since its entry last started, blocked calls and itself included, add up to at most the limit |
| History.ForcedExactlyAtCrossing | store/bucket/keybucket.go:59-67 | a sync is forced exactly by the call with which the counts offered since its entry last started pass the limit |
| History.EveryCallHasAStart | store/bucket/keybucket.go:33-49 | there is such a start for every call: the last event that created or restarted its entry |
| History.LifetimeBound | store/bucket/keybucket.go:46-67 | the calls answered with one expiry are allowed at most the limit in total, or what room the entry had left |
| History.SlidingIntervalBound | store/bucket/keybucket.go:46-67 | the calls allowed in any closed interval one window long total at most twice the limit |
| History.SlidingIntervalIsTight | store/bucket/keyentry.go:42-45 | for every window, an interval between two boundaries reaches twice the limit, the first half of it at the instant the old window ends |
| History.RuleIsExact | store/store.go:405-411 | an ordinary request is served with its own limit and window, a peak-averaged one by the second with the ceiling of its average |
| History.PeakAveragedBound | store/store.go:405-411 | over any w consecutive one-second expiries peak-averaged calls are allowed less than t + w |
| Projection.KeysAreIndependent | store/store.go:405-431 | through any run of a node, a key's entry and the answers to its calls are those of the key's own run |
| Projection.AllowedProjects | store/store.go:405-431 | what a node allows a key, in one window or time interval, is what the key's own run allows |
| Projection.NodeSlidingBound | store/bucket/keybucket.go:46-67 | on a node serving any number of keys, the calls on a key no peer reports on that are allowed in any closed interval one window long total at most twice the limit |
| NodeHistory.NodeFollowsHistory | store/cluster.go:202-210 | in every run of a cluster, a node's entry for a key is what its calls, deliveries and collector visits there make of it, each at its time |
| NodeHistory.NodeAnswersAsHistory | store/store.go:405-411 | and its answers are those of that history |
| Rounding.FloatCeilingIsExact | store/store.go:407-410 | for every int32 threshold and non-zero window, of either sign, rounding the quotient to float64 does not change its ceiling; the ceiling fits int32 for all of them but -2^31 over -1 |
| Locks.EntryNeverReplaced | store/bucket/keybucket.go:33-44 | under any schedule a key keeps the entry it was first given |
| Locks.RealTimeOrder | store/bucket/keybucket.go:45-59 | a call or remote command past its critical section before another began its own comes before it in the order |
| Locks.OnlyExpiredDiscarded | store/bucket/keybucket.go:71-73 | in every run a discarded remote command has expired, and one let through had not when its receiver read the clock |
| Locks.AloneIsAtomic | store/bucket/keybucket.go:29-90 | a call or remote command that runs undisturbed is the atomic one: its entry, its answer, and discarded exactly when expired |
| Linearization.CallSectionExactly | store/bucket/keybucket.go:45-56 | on any entry, a call's critical section does what the atomic call does, answer included, exactly when the entry is live or the clock reading is of the current window |
| Linearization.SyncSectionExactly | store/bucket/keybucket.go:71-89 | a remote count applied in a critical section has the atomic command's effect exactly when it is unexpired there, or the entry is expired anyway, or nothing is added |
| Linearization.Linearizable | store/bucket/keybucket.go:29-68 | for any schedule, windows, limits and counts in which sections are on time, a call's blocking, forced sync and the expiry it counted under are those of the sequential counter at its place in section order |
| Linearization.MirrorsExactly | store/bucket/keybucket.go:29-90 | all through a run the entry is, for every later call and command, the sequential counter's exactly when every section is on time |
| Linearization.FirstLateSection | store/bucket/keybucket.go:46-49 | the first call's section that is not on time counts under another expiry than the sequential counter |
| ExpiryReads.AnswerExactly | store/bucket/keybucket.go:59-66 | a call answers with the expiry it counted under if no section moved the entry's expiry before the call read it; only then, and otherwise with a later one, unless some section turns the expiry back; on time, the whole answer is the sequential one exactly when those expiries agree |
| Punctuality.TimelyIsPunctual | store/bucket/keybucket.go:32-49 | sections are on time, over any number of windows, when they run in the window their callers read the clock in and off the instants windows end |
| Punctuality.AnswersInsideWindow | store/bucket/keybucket.go:29-68 | in a run inside one window whole answers, expiry included, are the sequential ones |
| Punctuality.PunctualRestartsAhead | store/bucket/keybucket.go:46-49 | in a run on time no call restarts the entry under a past expiry |
| Grants.ConcurrentCallsWithinLimit | store/bucket/keybucket.go:29-68 | unless some call restarts the entry under a past expiry, any number of interleaved threads are granted in each window at most the limit, or the room its entry had left, whatever windows and remote commands there are |
| Punctuality.ConcurrentCallsInsideWindow | store/bucket/keybucket.go:29-68 | in a run inside one window all grants are of that window, and within that bound |
| Delays.DelayedCallerAlone | store/bucket/keybucket.go:45-67 | a caller whose window is over when it finds an expired entry is granted any count within the limit and leaves the entry expired |
| Delays.DelayedCallersAllGranted | store/bucket/keybucket.go:32-56 | for every number of callers, limit, window and delay outlasting it, a schedule in which all are granted the whole limit at one instant under one expiry |
| Delays.LimitFailsExactly | store/bucket/keybucket.go:32-56 | callers who read the clock from some time on can be granted more than the limit, in some window by some schedule, exactly once the window of that time is over |
| Delays.OvertakenCallNamesLaterWindow | store/bucket/keybucket.go:59-66 | for every limit and window, a run with sections on time in which a call is counted in one window and answered with the expiry of a later one |
| Sharding.MaskedHashInRange | store/store.go:391-393 | the masked hash is a valid bucket index for every bucket count |
| Sharding.MaskedHashBits | store/store.go:391-393 | masking keeps, of every binary digit of the hash, what the mask has there |
| Stores.Store.BucketOf | store/store.go:391-393 | a key's bucket is the one numbered by the digits of its hash that the mask leaves |
| Sharding.ReachableExactly | store/store.go:391-393 | the buckets some hash selects are those whose number the mask leaves unchanged |
| Sharding.EveryBucketReachable | store/store.go:251-257 | every bucket can be selected exactly when the bucket count is a power of two |
| Sharding.DefaultMissesBuckets | store/store.go:61 | the default count is no power of two, and leaves bucket 8 unused |
| Stores.Store.constructor | store/store.go:249-263 | a new store has empty buckets, an empty channel, and every key assigned to one bucket |
| Stores.Store.CallBucket | store/store.go:411-411 | a call on the key's own bucket is a call on the flat map |
| Stores.Store.Incr | store/store.go:405-431 | serves an ordinary request with its own limit and window, and a peak-averaged one by the second with the ceiling of any float64 quotient, as the flat map would; an allowed call is announced unforced, the call that crossed the limit forced, any other not at all |
| Stores.Store.SyncKeys | store/cluster.go:202-210 | applies a received batch as the flat map would, command by command |
| Stores.Store.Gc | store/store.go:438-452 | a pass over all buckets, taking any amount of time, is one pass over the flat map that looks at every key once |
| Worker.ReceiveKeeps | store/store.go:318-341 | after each command, what is pending sits under its own key, within the unsynced limit, and is not forced |
| Worker.PendingIsLatestRun | store/store.go:323-337 | a pending count is the sum of its key's latest run of equal expiries |
| Worker.CoalescingPreservesMeaning | store/store.go:323-337 | delivering the merged batch leaves any receiver where the commands one by one would, provided a superseded command has expired |
| Worker.SyncWorker.Drain | store/store.go:353-360 | a flush lists every pending command once and empties the map |
| Worker.SyncWorker.Handle | store/store.go:315-365 | a command is added to one of equal expiry and replaces any other; everything pending is sent, and nothing kept, exactly when the command is forced, its merged count passes the unsynced limit, the timer fires, or the channel closes |
| Worker.SyncWorker.Run | store/store.go:307-374 | over the whole loop, delivering what was sent, in order, and then what is pending leaves any receiver where the commands received until the channel closed, one by one, would |
| Cluster.ClusterWorkerIsLoop | store/store.go:315-365 | a node of the cluster takes a command, or runs out of patience, as one iteration of that loop does |
| Cluster.TimeoutFlushes | store/store.go:348-360 | a worker out of patience sends all it holds and keeps nothing |
| Cluster.SendsExactly | store/store.go:319-341 | in every run, taking a command sends exactly when it is forced, or when its key's latest run since the last flush passes the unsynced limit |
| Forcing.ChannelIsFifo | store/store.go:412-419 | in every run, the commands announced by a node's answers were taken in order or are still queued |
| Forcing.ForcedFlushes | store/store.go:319-360 | taking a forced command sends a batch that holds it and leaves nothing pending |
| Forcing.CrossingIsAnnouncedAtOnce | store/store.go:412-419 | once a worker took the command of the call that crossed the limit, it never again holds or has queued anything of that key and window |
| Cluster.StreamAlwaysOk | store/store.go:411-419 | in every run, of two commands of a key a node queued or took, the older names the same expiry or has expired, and unexpired ones name their entry's expiry |
| Cluster.PendingStandsForItsCommands | store/store.go:323-337 | in every run, what is pending has for any receiver, now or later, the effect of the commands taken since the last flush |
| Cluster.SentBatchStandsForItsCommands | store/store.go:338-365 | in every run, a batch sent because it is full or forced has for any receiver the effect of all commands since the last flush |
| Cluster.ReplacedHasExpired | store/store.go:332-336 | in every run, a pending command is replaced only once it has expired |
| Cluster.PendingCount | store/store.go:323-341 | in every run, a pending count is the sum of its latest run since the last flush and within the unsynced limit |
| Replication.WindowAgreement | store/bucket/keybucket.go:70-102 | with one window per key, everything unexpired about it anywhere carries the current window's expiry, or the one ending at this instant |
| Replication.SyncMixesExactlyOnBoundary | store/bucket/keybucket.go:71-88 | a delivered command and the receiver's live entry name different windows exactly when one of the two, and only one, ends at this instant |
| Replication.Conservation | store/cluster.go:101-116 | until its window is over, everything accepted at i is queued, pending, on its way to j, applied at j, or lost |
| Replication.CountsReach | store/cluster.go:202-210 | a node's counter holds exactly what its own calls and its peers added in that window |
| Replication.CounterLag | store/cluster.go:202-210 | a node's counter is the cluster's total less exactly what it has not been told |
| Replication.Convergence | store/cluster.go:101-116 | once nothing is outstanding, and nothing was lost, every node holds the cluster's total |
| Replication.AllowedCallOvershoot | store/bucket/keybucket.go:54-64 | an allowed call leaves the cluster's total at most the limit plus what its node has not been told |
| Overshoot.NodeAllowance | store/bucket/keybucket.go:54-64 | each node allows a key at most the limit in one window, whatever arrives and whatever is lost |
| Overshoot.ClusterAllowance | store/bucket/keybucket.go:54-64 | the cluster allows at most the limit times its size |
| Overshoot.OvershootBound | store/store.go:318-365 | with prompt workers and lossless delivery the cluster allows at most the limit plus, for all nodes but one, the unsynced limit or the limit if that is less |
| Witnesses.OvershootIsReached | store/store.go:338-341 | for every number of nodes, limit and unsynced limit, a run allows exactly that bound |
| Witnesses.BoundaryInstantMixesWindows | store/bucket/keybucket.go:71-88 | for every key, window, boundary instant and counts, a run after which a node holds more for a window than the cluster accepted in it |
| Witnesses.MixingExactlyAtBoundaries | store/bucket/keybucket.go:71-102 | with one window length, some run delivers a command into another window at time t exactly when a window ends at t |
| Bounds.AcceptedBound | store/bucket/keybucket.go:54-56 | one node accepts at most the limit and one more call's count per window |
| Bounds.EntryBound | store/bucket/keyentry.go:50-57 | in every such run a live entry holds at most what all nodes together may accept |
| Bounds.BacklogBound | store/store.go:328-331 | what a node queued and holds pending for a window never exceeds what it accepted |
| Bounds.NoWrapAnywhere | store/bucket/keyentry.go:50-57 | when all nodes together may accept at most 2^31 - 1, the 32-bit cluster goes through exactly the states of the unbounded one |

## Left out

- Linearization.Linearizable: does not include collector steps, because a collected entry can be orphaned between a caller's lookup and its critical section.
- KeyBuckets.KeyBucket.Incr: the object runs at one instant; calls whose clock readings differ are modelled step by step in Locks.
- Stores.Store.SyncKeys: a batch is applied at one clock reading, where the program reads the clock for each command; likewise the cluster's delivery step.
- Stores.Store.Incr: a full channel, which would block the caller, and the statsd event are not modelled; peak averaging with a window of 0, or of -1 and the least threshold, is excluded, because Go leaves that conversion to int32 to the implementation.
- Worker.SyncWorker.Run: commands are values, so the recycling of a command object while a send may still read it is not captured.
- Overshoot.OvershootBound: unsynced limits below 0 are treated as 0.
- Negative clock readings, a clock that is set back, and clocks that differ between nodes.
- Membership changes, ringpop, tchannel and thrift marshalling; a fixed node set and a bag of messages stand for them.
- A message delivered twice: the program hands each to its forwarding library once, with that library's default options, and whether it delivers again is not modelled.
- Rate configuration: its replication, persistence and `RateLimitGlobal`; unversioned overwrites with unordered sends converge to nothing in particular.
- The HTTP server, options, logging, statistics and events.
- The Murmur3 hash is an arbitrary function from keys to natural numbers.
- `lastmodified` is kept in the entry but nothing reads it.
