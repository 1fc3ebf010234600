# A verified model of the tracing cache and its console

A program that links the span cache records spans and events on many threads; a driver joins events
to their spans and fans closed spans out; a terminal console absorbs them into a bounded, incremental
aggregation and draws a table, a tree, a chart and a rate from it. This project models the logic of
that pipeline and proves what it keeps over every run.

| file | models |
|---|---|
| `Spans`, `Ordering`, `Splits`, `Buckets`, `Ledger`, `Bags` | the wire span, key orders, split lists, bucket statistics, entries and child sums, and their independence of order |
| `Forest` | the aggregator without its derived tables: insertion log, window still in the ring, waiting pool, lost spans; `Drain` is a worklist |
| `Aggregator` | the aggregator as the class it is, all tables updated in place; each method refines `Forest` and keeps every table exact |
| `Survival`, `Snapshots` | what re-bucketing keeps; what a snapshot restores |
| `Chains`, `Reference`, `ReferenceBuckets`, `Runs`, `OpenSpans` | bucket keys read off whole chains; the whole-buffer reference bucketing, with and without its depth cap, as a definition and as the loops it is written in; parity over whole runs, open spans included |
| `SortedRows` | early-exit scans, visible rows, expand and collapse over rows sorted by stack and splits |
| `TraceTree` | the trace view: a depth-first walk whose end rests on the order of the ring |
| `GraphStore`, `GraphView` | the chart's binned series, fed span by span or rebuilt from the ring |
| `RateTracker` | the circular half-second counter |
| `TracingIds`, `SpanCache`, `CacheRuns` | tracing ids; the cache as atomic steps of any number of threads, freely interleaved; runs that open spans |
| `Records`, `EventJoin`, `ThreadState`, `Delivery` | the driver's bounded side buffer; a thread's pending buffers; what one thread of any run of the cache emits and closes, followed to its delivery |
| `Witnesses`, `ChartWitnesses` | concrete inputs at which the limits below are reached |

## What the proofs say about the program

- **Parity at any depth, and where the reference stops.** On every run that fits the budget the rows
  are the bucketing of the renderable spans by their whole chains, at any depth (`Runs.RunMatchesReference`).
  `reference_bucket_by_stack` stops at 65 spans of a chain, so it agrees if and only if no arrived chain
  is longer; `Witnesses.DeepRunDiffers` is such a run. Arrival order does not matter (`Runs.RunsAgree`).
  "Fits" is a condition on the input and is exact too (`Runs.IntactIffFits`).
- **Open spans count for the reference only.** The aggregator discards a span that is still open, the
  reference takes it as a present parent. Over all arrivals the two agree if and only if, besides the
  depth limit, every complete chain that starts at a closed span is closed throughout; a closed span under
  an open one whose own chain is incomplete is shown by neither (`OpenSpans.OpenSpansMatterIff`). An open
  root and its closed child are enough to part them (`Witnesses.OpenParentDiffers`).
- **Changing split keys can drop spans.** The comment at `state.rs:448-453` says every parent stands
  before its children in `order`, so that re-feeding the ring needs no parking. A parent that was
  evicted is no longer in `order`. Its children are then parked in a pool that is thrown away, and
  everything below them with it. `Survival.SurvivesIffRooted` says exactly which entries stay: those
  whose whole parent chain is still in the ring. Restoring a snapshot replays the ring the same way:
  ring and rows come back if and only if no entry has an evicted ancestor (`Snapshots.RoundTrip`,
  `Snapshots.RowsComeBackIff`). With a budget of two, a root, its child and another root are enough to
  lose the child (`Witnesses.OrphanedEntryIsDropped`).
- **Two branches of `evict_oldest` never act.** Giving an evicted child's time back to its parent and
  dropping the waiters of an evicted span are both right where they would apply (`EvictFront`), but
  no reachable state gets there: a parent is always evicted before its children, and nothing waits
  for a ring entry (`Survival.NoSurvivingParent`, `Survival.EvictionIsQuiet`). For the same reason
  `already_summed` at `state.rs:255` is 0 in every run.
- **A late release breaks the chart.** The comment at `graph.rs:247-248` expects times in order. A
  parent that releases parked children delivers their earlier closing times after its own arrival, and
  one of the subtractions `bin_idx + 1 - base_idx` and `bin_idx - base_idx` goes below zero if and only
  if the sample's series exists, the sample is not before the origin, and its bin lies before the first
  bin the series retains (`GraphStore.GraphSeriesStore.Record`). Five spans arriving in the order they
  closed are enough (`ChartWitnesses.ClosingOrderIsNotEnough`). Samples offered in time order never get
  there, whatever the times (`GraphStore.TimeOrderIsAllRecordable`). An origin of 0 means "unset"; samples
  that early all fall in bin 0 and do no harm.
- **Self time drifts on the chart.** Fed span by span the chart shows what a rebuild from the ring
  would, provided nothing was evicted, exactly as long as the earlier readings still stand
  (`GraphView.RehydrateExtendsIff`). For total time and count they always do. For self time they do if
  and only if every charted span got no more child time or had no self time left
  (`GraphView.SelfTimesStandIff`); a root and its child are enough to break it
  (`ChartWitnesses.SelfTimeDrifts`).
- **Crossed exits misattribute.** `exit` pops the top of the thread's stack whichever span it names
  (`cache.rs:538-540`). The stack is the list of spans entered and not exited, all through a run, if and
  only if every exit of the thread names the innermost of them, or nothing is entered
  (`SpanCache.InStepIffExitsInOrder`). After entering a, entering b and exiting a, the span still entered is
  b, yet contextual spans and events go to a (`SpanCache.CrossedExitMisleads`, reached from a new cache in
  `CacheRuns.CrossedExitReached`). Whatever the exits, every recorded chain still ends in a recorded root.
- **The rate counter lags after a pause and catches up.** An event is counted in its own half-second if
  and only if fewer than five seconds had passed since the current bucket opened; otherwise it lands nine
  half-seconds on, and so do later ones until the clock has caught up
  (`RateTracker.RateTracker.Record`, `RateTracker.PauseLandsEarly`).
- **The side buffer loses events only when too many spans wait.** No event is pushed out if and only if,
  after every arrival, the spans with events since they last closed fit `max(1, capacity)`
  (`EventJoin.NoneEvictedIff`); with room for one, two spans are enough to lose an event
  (`EventJoin.CrowdedSpanLosesItsEvent`).

## Conditions the code assumes

Span ids are pairwise distinct over a run (`Unused`, `UniqueIds`; the cache delivers that,
`SpanCache.ClosedOnce`). `history_budget >= 1`, since the loop at `state.rs:259-261` does not end
at 0. `window_ns >= 1`. A tracing id is used only while its span is open, and a thread
finishes `new_span` before it does anything else. Slab indices fit the low bits of a tracing id. The
reference's recursion is given a buffer without a parent cycle. The model takes every `u64`, `u128`
and `usize` as an unbounded natural number, except the saturating `u32` buckets of the rate counter and
the saturating subtractions, which are written out.

## Model

Paths are relative to the repository's root.

| member | source | states |
|---|---|---|
| Runs.RunMatchesReference | tracing-console/src/aggregate/tests.rs:11-131 | After any run whose closed spans are distinct and fit the budget, in any order, the ring holds exactly the spans whose whole parent chain arrived closed and the pool holds the rest; the rows are the ring's bucketing by whole chains, at any depth; and they are the reference's on the closed arrivals if and only if no chain exceeds 65 spans (open spans are removed on both sides; see `OpenSpans.OpenSpansMatterIff`) |
| OpenSpans.OpenSpansMatterIff | tracing-console/src/aggregate/tests.rs:11-131 | With the open spans left in the reference's buffer, the rows agree if and only if every complete chain that starts at a closed span is closed throughout and no closed chain exceeds 65 spans |
| Witnesses.OpenParentDiffers | tracing-console/src/aggregate/tests.rs:22-60 | An open root and its closed child: the reference shows the child, the aggregator does not |
| OpenSpans.CountingIsMore | tracing-console/src/aggregate/tests.rs:49-104 | With open spans in the buffer the reference counts at least as many spans, and exactly the same ones only if the two notions of renderable agree |
| Runs.RunsAgree | tracing-console/src/aggregate/state.rs:212-319 | Two runs over the same spans in different orders end with the same rows and the same pool, at any depth |
| Runs.IntactIffFits | tracing-console/src/aggregate/state.rs:256-319 | A run evicts nothing and loses nothing if and only if its renderable spans fit the budget and after each arrival the stranded ones fit the pool |
| Runs.RegroupMatchesReference | tracing-console/src/aggregate/state.rs:427-462 | After a change of split keys the rows are the bucketing of the survivors by whole chains under the new keys, at any depth; the capped reference agrees if and only if no surviving chain exceeds 65 spans |
| Runs.CascadeLosesNothing | tracing-console/src/aggregate/state.rs:298-306 | Draining released waiters parks and loses nothing while nothing is evicted |
| Runs.DrainWindow | tracing-console/src/aggregate/state.rs:258-261 | Draining moves the window just as far as the log outgrows the budget |
| Reference.RowsAreUncapped | tracing-console/src/aggregate/state.rs:212-319 | For any state that evicted and lost nothing, incremental rows equal the bucketing of the renderable spans by their whole chains |
| Reference.ParityIffShortChains | tracing-console/src/aggregate/tests.rs:62-131 | They equal the capped reference's rows exactly when no chain exceeds 65 spans |
| Reference.CapIsMoot | tracing-console/src/aggregate/tests.rs:62-95 | On chains of at most 65 spans the cap changes no row |
| Reference.RowsCountEntries | tracing-console/src/aggregate/tests.rs:97-131 | Equal rows come from equally many spans |
| Reference.RowSays | tracing-console/src/aggregate/state.rs:50-62 | A row counts its bucket's entries, adds up their times, and its extremes occur among them and bound all of them |
| Reference.OfBucketIs | tracing-console/src/aggregate/state.rs:283-287 | The entries of a bucket are exactly those with its key, each as often as it occurs |
| Ledger.EntryIs | tracing-console/src/aggregate/state.rs:250-257 | An entry holds its span's duration, its key, and as own time what the child sum leaves of the duration, zero if nothing |
| Ledger.ChildSumIs | tracing-console/src/aggregate/state.rs:273-281 | Each child adds its own duration to its parent's sum, nothing else does |
| Spans.DurationIs | tracing-console/src/aggregate/state.rs:251-254 | A duration is closing minus opening time, zero for a clock that ran backwards |
| Spans.DifferenceIs | tracing-console/src/aggregate/state.rs:251-256 | A saturating difference is the difference, or zero where there is none |
| Spans.NewIdsAre | tracing-console/src/aggregate/state.rs:297 | The ids returned are those behind the old end of the log, in order |
| Reference.ArrivalOrderIsIrrelevant | tracing-console/src/aggregate/state.rs:212-319 | States over the same bag of spans hold the same bag in the ring and in the pool, and show the same rows |
| Reference.RingIsTheRenderable | tracing-console/src/aggregate/tests.rs:22-49 | A span is in the ring exactly when its whole parent chain arrived |
| Reference.BucketsShowRows | tracing-console/src/aggregate/state.rs:50-62 | Exact buckets read out as statistics are the folds, in ring order, of their entries' contributions |
| Reference.FoldSummarises | tracing-console/src/aggregate/tests.rs:97-121 | Running count, sum, minimum and maximum are those of the whole list of contributions |
| Reference.SummaryBag | tracing-console/src/aggregate/tests.rs:97-121 | Statistics depend on the bag of contributions only, so they are unique |
| ReferenceBuckets.ReferenceBucketByStack | tracing-console/src/aggregate/tests.rs:11-131 | For any buffer of distinct ids without a parent cycle the list ascends by splits, then stack, and holds exactly the defined rows |
| ReferenceBuckets.ReferenceAscends | tracing-console/src/aggregate/tests.rs:124-130 | The list ascends by splits, pair by pair, key before value, then by stack |
| ReferenceBuckets.BucketAll | tracing-console/src/aggregate/tests.rs:97-122 | The loops, maps and memo of the reference compute the defined rows |
| ReferenceBuckets.IsRenderable | tracing-console/src/aggregate/tests.rs:22-49 | The memoised recursion says whether a whole parent chain is in the buffer, and keeps the memo right |
| ReferenceBuckets.WalkKey | tracing-console/src/aggregate/tests.rs:62-95 | The walk to the root gives the key of the first 65 spans of the chain, first field value winning, key-sorted |
| ReferenceBuckets.SumChildren | tracing-console/src/aggregate/tests.rs:51-60 | Child sums count exactly the closed renderable children |
| ReferenceBuckets.MarkRenderable | tracing-console/src/aggregate/tests.rs:46-49 | Every span's mark says whether its whole chain is in the buffer |
| Aggregation.Aggregator.constructor | tracing-console/src/aggregate/state.rs:124-136 | A new aggregator is valid and empty, its pool capped at a quarter of the budget but at least one |
| Aggregation.Aggregator.Absorb | tracing-console/src/aggregate/state.rs:212-229 | Absorbing a new span moves the state as the worklist does, keeps every table exact, and returns exactly the ids that reached the ring, in order; open spans are discarded |
| Aggregation.Aggregator.AbsorbResolved | tracing-console/src/aggregate/state.rs:231-306 | One call of the recursion does what the worklist does for its span, whatever else its callers hold, and ends, measured by the size of the pool |
| Aggregation.Aggregator.AbsorbCommitted | tracing-console/src/aggregate/state.rs:251-306 | A resolvable span is placed, its waiters are absorbed in turn, and the ids appended are those newly logged |
| Aggregation.Aggregator.AbsorbOrphan | tracing-console/src/aggregate/state.rs:242-246 | A span whose parent is not in the ring is parked and nothing else changes |
| Aggregation.Aggregator.DrainWaiters | tracing-console/src/aggregate/state.rs:298-305 | Absorbing the waiters one by one equals the worklist over all of them, even if the ring evicts their parent meanwhile |
| Aggregation.Aggregator.AbsorbAll | tracing-console/src/aggregate/state.rs:212-229 | A whole batch of new spans keeps every invariant and ends where the worklist ends |
| Aggregation.Aggregator.FindBucket | tracing-console/src/aggregate/state.rs:234-248 | A bucket is found exactly when the span is a root or its parent is in the ring, and it extends the parent's key |
| Aggregation.Aggregator.ResolveBucket | tracing-console/src/aggregate/state.rs:393-404 | The key is the parent's stack plus the span's name, with the span's own field values over the inherited ones |
| Aggregation.Aggregator.CommitSpan | tracing-console/src/aggregate/state.rs:251-300 | Placing a span slides the window, keeps every table exact and hands back exactly the list that waited for it |
| Aggregation.Aggregator.CommitTables | tracing-console/src/aggregate/state.rs:251-296 | Self time, eviction, parent update, bucket and ring together mirror the new window |
| Aggregation.Aggregator.MakeRoom | tracing-console/src/aggregate/state.rs:258-261 | Evicts just enough entries for one more and leaves the pool untouched |
| Aggregation.Aggregator.Insert | tracing-console/src/aggregate/state.rs:263-296 | Entries, buckets and child sums mirror the ring with the span at its back, its parent's self time reduced |
| Aggregation.Aggregator.ChargeParent | tracing-console/src/aggregate/state.rs:263-281 | A ring parent's child sum and self time take in the new child; all other entries stay |
| Aggregation.Aggregator.PushBack | tracing-console/src/aggregate/state.rs:283-297 | The entry is posted to its bucket and joins the ring and the entry map |
| Aggregation.Aggregator.BumpParentSelf | tracing-console/src/aggregate/state.rs:366-391 | The entry's self time and its bucket become those of the new child sum, and no other bucket changes |
| Aggregation.Aggregator.EvictOldest | tracing-console/src/aggregate/state.rs:321-364 | All tables mirror the ring without its front, waiters of the evicted span are dropped; nothing happens on an empty ring |
| Aggregation.Aggregator.EvictFront | tracing-console/src/aggregate/state.rs:325-363 | The same for any exact tables, even with the front's parent still in the ring |
| Aggregation.Aggregator.GiveBack | tracing-console/src/aggregate/state.rs:351-363 | Child sums and the parent's self time become those of the ring without the child |
| Aggregation.Aggregator.PopFront | tracing-console/src/aggregate/state.rs:322-349 | The front leaves ring, map and bucket, and a bucket that empties disappears |
| Aggregation.Aggregator.ParkPending | tracing-console/src/aggregate/state.rs:308-319 | The span is appended to its parent's list, overflow drops whole lists from the lowest parent up, and the length counter is the true pool size |
| Aggregation.Aggregator.ShedOverflow | tracing-console/src/aggregate/state.rs:311-318 | Whole lists are dropped from the lowest missing parent up until the pool fits, and not beyond (`Forest.TrimDropsLowest`, `Forest.TrimStopsInTime`) |
| Aggregation.Aggregator.TakeWaiters | tracing-console/src/aggregate/state.rs:300-301 | The list of one parent leaves the pool and the counter with it |
| Aggregation.Aggregator.SetSplitKeys | tracing-console/src/aggregate/state.rs:146-152 | Equal keys change nothing; other keys leave the survivors of the ring, the same pool, and every table exact under the new keys |
| Aggregation.Aggregator.RebuildBuckets | tracing-console/src/aggregate/state.rs:427-462 | Tables that followed the old keys become exact tables of the survivors under the new ones, the pool as it was |
| Aggregation.Aggregator.ReplaySpans | tracing-console/src/aggregate/state.rs:431-456 | Cleared tables refilled from a list of spans are valid |
| Aggregation.Aggregator.Rows | tracing-console/src/aggregate/state.rs:406-425 | The rows are exactly the ring's buckets with their exact statistics, each once, and of two rows with different stacks the first has the smaller one: a proper prefix, or smaller at the first name and there at the first character that differs |
| Aggregation.Aggregator.CollectSplitsFor | tracing-console/src/aggregate/state.rs:187-211 | The walk over the ring returns the key-sorted splits of the first 65 spans of the chain, nearest the leaf winning |
| Aggregation.Aggregator.EntryOf | tracing-console/src/aggregate/state.rs:169-185 | Looking up an id finds the ring span of that id, its resolved key and its exact child sum, or nothing when it is not in the ring |
| Aggregation.Aggregator.Serialize | tracing-console/src/aggregate/state.rs:529-544 | The snapshot holds the ring in order, the pool, the split keys and the budget |
| Aggregation.Aggregator.Deserialize | tracing-console/src/aggregate/state.rs:546-563 | Reading any snapshot with distinct ids, its pool keyed by parents that do not come into the ring, gives a valid aggregator: the closed spans drained in order, then the pool parked again, lowest key first |
| Snapshots.SavedIsReadable | tracing-console/src/aggregate/state.rs:529-563 | A snapshot of a reachable aggregator is such a snapshot, and reading it gives the restored state |
| Aggregation.Aggregator.SaveAndRestore | tracing-console/src/aggregate/state.rs:521-563 | Saving and reading back gives the same rows if and only if no entry has an evicted ancestor, and then the same order, entries, buckets, child sums, pool and split keys |
| Forest.DrainKeeps | tracing-console/src/aggregate/state.rs:231-319 | Draining keeps the invariant: distinct ids, parents before children, waiters keyed by their parent and never by a ring id, pool within its cap |
| Forest.Conservation | tracing-console/src/aggregate/state.rs:231-319 | Every span is in exactly one place: logged, parked or lost |
| Forest.DrainPool | tracing-console/src/aggregate/state.rs:231-319 | The pool grows by at most one per span handed in, which bounds the recursion |
| Forest.DrainConcat | tracing-console/src/aggregate/state.rs:298-305 | Draining a list equals draining its parts one after the other |
| Forest.TrimFacts | tracing-console/src/aggregate/state.rs:308-319 | Shedding ends within the cap and keeps surviving lists whole |
| Forest.TrimDropsLowest | tracing-console/src/aggregate/state.rs:311-318 | Every list dropped lies below every list kept |
| Forest.TrimStopsInTime | tracing-console/src/aggregate/state.rs:311-318 | If any list is dropped, the last one dropped would not have fitted |
| Forest.PoolCapIs | tracing-console/src/aggregate/state.rs:131 | The pool's cap is a quarter of the budget, rounded down, at least one |
| Forest.ReleasedInOrder | tracing-console/src/aggregate/state.rs:298-306 | Waiters follow the span they waited for at once, in the order they arrived |
| Survival.SurvivesIffRooted | tracing-console/src/aggregate/state.rs:430-456 | An entry survives re-bucketing exactly when its whole parent chain is in the ring |
| Survival.Replay | tracing-console/src/aggregate/state.rs:431-456 | Re-absorbing the ring into empty tables logs the survivors in their old order, evicting nothing |
| Survival.RegroupKeeps | tracing-console/src/aggregate/state.rs:430-462 | Re-bucketing keeps the invariant and accounts for every span |
| Survival.CompleteIffAllSurvive | tracing-console/src/aggregate/state.rs:445-456 | Nothing is dropped exactly when no entry has an evicted ancestor |
| Survival.NoSurvivingParent | tracing-console/src/aggregate/state.rs:321-364 | In every reachable state the evicted front's parent is not in the ring and nothing waits for the front |
| Survival.EvictionIsQuiet | tracing-console/src/aggregate/state.rs:321-364 | Eviction changes no surviving entry |
| Survival.RingOrdered | tracing-console/src/aggregate/state.rs:445-454 | In every reachable state no ring entry names a parent at or after itself |
| Snapshots.RoundTrip | tracing-console/src/aggregate/state.rs:521-562 | The restored log is the survivors of the saved ring; it is the saved ring exactly when no entry has an evicted ancestor, and then the pool comes back too |
| Snapshots.FlattenIsSorted | tracing-console/src/aggregate/state.rs:554-560 | The pool is parked again by missing parent, lowest first |
| Snapshots.EntriesComeBack | tracing-console/src/aggregate/state.rs:546-553 | With no evicted ancestor, replaying the ring alone gives every entry the bucket key and self time it had |
| Snapshots.RowsComeBackIff | tracing-console/src/aggregate/state.rs:546-562 | The restored rows are the saved rows exactly when no entry has an evicted ancestor |
| Snapshots.SurvivorKeepsKey | tracing-console/src/aggregate/state.rs:445-456 | A survivor resolves to the key it had before |
| Witnesses.OrphanedEntryIsDropped | tracing-console/src/aggregate/state.rs:445-462 | Budget two, a root, its child, another root: re-bucketing and a snapshot drop the child |
| Witnesses.DeepRunDiffers | tracing-console/src/aggregate/tests.rs:62-95 | For every length above 65, a single chain that fits the budget has rows the reference does not |
| Chains.InheritanceIsTheChain | tracing-console/src/aggregate/state.rs:393-404 | Inheriting the parent's resolved key gives the key read off the whole chain |
| Chains.WalkAgreesIffShort | tracing-console/src/aggregate/tests.rs:62-95 | The capped walk gives the inherited key exactly on chains of at most 65 spans |
| Chains.RingWalkIsInheritance | tracing-console/src/aggregate/state.rs:193-211 | With the whole chain in the ring and at most 65 spans long, walking finds the splits inheritance resolved |
| Chains.KeyMapEquation | tracing-console/src/aggregate/state.rs:399-404 | Every logged span's key extends its parent's |
| Chains.KeySays | tracing-console/src/aggregate/state.rs:393-404 | A key holds the names along the chain, root first, and in ascending order one split for each selected key that occurs on the chain, with the value nearest the leaf |
| Chains.NearestWins | tracing-console/src/aggregate/state.rs:465-489 | Along a chain a key's value is that of the first span, from the leaf, that has it |
| Chains.ClimbStops | tracing-console/src/aggregate/state.rs:196-202 | The walk goes on while there is a parent, and never beyond 65 spans |
| Splits.CollectSplits | tracing-console/src/aggregate/state.rs:465-489 | The list is the sorted, duplicate-free reading of the inherited values overlaid by the span's own |
| Splits.TakeFields | tracing-console/src/aggregate/state.rs:203-207 | One span's fields are taken only under selected keys that are still free |
| Splits.CanonUnique | tracing-console/src/aggregate/state.rs:209-210 | Sorting by key leaves one possible list for a set of pairs |
| Splits.FieldMapIs | tracing-console/src/aggregate/state.rs:474-478 | Within one span the first field of a selected key counts |
| Splits.SortedListIs | tracing-console/src/aggregate/state.rs:487 | A resolved list is in ascending order of its keys, each once |
| Ordering.StringLeIs | tracing-console/src/aggregate/state.rs:418-422 | Names are compared at the first character that differs, the smaller first, a prefix before what extends it |
| Ordering.LexIs | tracing-console/src/aggregate/state.rs:418-422 | Lists are compared at the first element that differs, a prefix before what extends it |
| Buckets.TallyAdd | tracing-console/src/aggregate/state.rs:26-32 | Adding a contribution anywhere keeps count, sums and both multisets exact |
| Buckets.TallyRemove | tracing-console/src/aggregate/state.rs:37-44 | Removing a recorded contribution keeps them exact |
| Buckets.StatsAreExact | tracing-console/src/aggregate/state.rs:50-62 | Read-out minimum, maximum, count and sums are those of the contributions |
| Buckets.CountedRemove | tracing-console/src/aggregate/state.rs:65-74 | Decrementing drops one occurrence, and the key with the last one |
| Ledger.PostExact | tracing-console/src/aggregate/state.rs:283-287 | Posting an entry keeps all buckets exact and none empty |
| Ledger.UnpostExact | tracing-console/src/aggregate/state.rs:344-349 | Taking an entry out keeps all buckets exact and drops an emptied one |
| Ledger.RestateExact | tracing-console/src/aggregate/state.rs:387-388 | Replacing an entry's self time keeps all buckets exact |
| Ledger.ChargeExact | tracing-console/src/aggregate/state.rs:277-279 | Child sums stay right when a child joins |
| Ledger.RefundExact | tracing-console/src/aggregate/state.rs:354-361 | Child sums stay right when a child leaves, a zero sum being forgotten |
| SortedRows.RowsOf | tracing-console/src/aggregate/state.rs:412-424 | Sorted by stack, then splits, each bucket once |
| SortedRows.SortTable | tracing-console/src/aggregate/state.rs:418-424 | Under any total order of keys, the list is sorted and holds the table's rows |
| SortedRows.RowsAscend | tracing-console/src/aggregate/state.rs:418-422 | Rows ascend by stack, name by name, and rows of one stack by splits, pair by pair |
| SortedRows.BlockIsContiguous | tracing-console/src/model/core.rs:1229-1234 | Rows sharing a stack prefix stand together |
| SortedRows.DescendantIsLater | tracing-console/src/model/core.rs:1229-1234 | A proper extension stands after the row it extends |
| SortedRows.HasChildren | tracing-console/src/model/core.rs:1229-1244 | The early-exit scan finds a child exactly when some row, anywhere, properly extends the stack |
| SortedRows.HasSiblingAfter | tracing-console/src/aggregate/util.rs:49-77 | The early-exit scan is right exactly: some later row shares the prefix and differs at that level |
| SortedRows.IsVisible | tracing-console/src/model/core.rs:1214-1228 | The prefix scan finds whether every proper prefix is expanded |
| SortedRows.VisibleRows | tracing-console/src/model/core.rs:1206-1256 | The list holds, in order, exactly the rows all of whose proper prefixes are expanded, each with its depth and flags |
| SortedRows.ListedIff | tracing-console/src/model/core.rs:1213-1228 | A row is listed exactly when every proper prefix of its stack is expanded |
| SortedRows.ListedInOrder | tracing-console/src/model/core.rs:1213-1254 | The listed rows keep their order |
| SortedRows.ShownIs | tracing-console/src/model/core.rs:1229-1252 | A listed row carries its own depth, whether any row extends its stack, and whether it is expanded |
| SortedRows.ExpandAll | tracing-console/src/model/core.rs:395-416 | Every row at or below a visible root becomes visible, and only stacks from the root to above a descendant are added |
| SortedRows.CollapseHidesTheSubtree | tracing-console/src/model/core.rs:418-425 | Collapsing a stack hides exactly its proper descendants |
| SortedRows.CollapseForgets | tracing-console/src/model/core.rs:424-425 | Exactly the expansions at or below the row are forgotten |
| TraceTree.VisibleTraceRows | tracing-console/src/model/explore.rs:156-179 | Over any ring a reachable aggregator holds, the rows are those of the walk from the root; an unknown root gives none |
| TraceTree.WalkTrace | tracing-console/src/model/explore.rs:181-237 | The recursion over the indexed ring ends, because children stand after parents, and appends exactly the walk's rows |
| TraceTree.IndexRing | tracing-console/src/model/explore.rs:161-168 | The two maps hold every span by id and every parent's children in ring order |
| TraceTree.RowsAreTheTrails | tracing-console/src/model/explore.rs:156-237 | A row is listed exactly when a path of expanded spans leads from the root to its span or to its event's span, at the depth of that path, with the right flags |
| TraceTree.ListedOnce | tracing-console/src/model/explore.rs:181-237 | No span and no event is listed twice |
| TraceTree.RowsAreInPreorder | tracing-console/src/model/explore.rs:181-237 | The root comes first, every other row follows its parent's row with nothing shallower between, and siblings stand by time |
| TraceTree.ShowsIs | tracing-console/src/model/explore.rs:181-237 | What it means for a row to be shown, in terms of parents, collapsed spans and events alone |
| TraceTree.HeadedIs | tracing-console/src/model/explore.rs:181-237 | What it means for a row to stand under its parent's row |
| TraceTree.SiblingsAre | tracing-console/src/model/explore.rs:213-215 | Siblings stand by opening time or the event's own time |
| TraceTree.TiesAre | tracing-console/src/model/explore.rs:204-215 | At one instant a span's events come first in their order, then its children in ring order |
| TraceTree.EventItemIs | tracing-console/src/model/explore.rs:206-208 | Every event of a span is an item at its own time, by index |
| TraceTree.KidsNext | tracing-console/src/model/explore.rs:163-168 | A span's children are listed in ring order |
| TraceTree.SortIsStable | tracing-console/src/model/explore.rs:170-215 | Sorting orders by time and keeps the given order within one instant |
| TraceTree.StableSortIsUnique | tracing-console/src/model/explore.rs:170-215 | Any stable sort by time gives that list |
| TraceTree.ReachableRingIsTree | tracing-console/src/aggregate/state.rs:445-454 | Every reachable ring has distinct ids and parents before children |
| TraceTree.FindRootId | tracing-console/src/model/explore.rs:372-382 | A root is found exactly when the whole chain is in the ring and at most 256 spans long |
| GraphStore.GraphSeriesStore.Record | tracing-console/src/model/graph.rs:240-277 | For every sample: recording fails, by a subtraction below zero, if and only if the series exists, the sample is not before the origin and its bin lies before the series' first retained bin; otherwise each series has at most 600 slots ending at its latest bin, and each slot holds exactly count, sum, extremes and first 4096 values of its bin, empty slots exactly where no sample fell |
| GraphStore.LateIff | tracing-console/src/model/graph.rs:241-267 | That condition on the store is the one on the samples offered, and takes an origin already set |
| GraphStore.LateSampleUnderflows | tracing-console/src/model/graph.rs:260-267 | Three samples of two series, the last before its series' window: recording fails |
| GraphStore.GraphSeriesStore.ResetWindow | tracing-console/src/model/graph.rs:290-293 | A new window starts over with no samples |
| GraphStore.RecordInSeries | tracing-console/src/model/graph.rs:254-276 | One series keeps holding what binning its whole history gives, unless the bin lies before its base, which is when one of the two subtractions goes below zero |
| GraphStore.Advance | tracing-console/src/model/graph.rs:254-266 | Forward fill and eviction move the window to the new bin and keep the retained slots; just before the base nothing moves |
| GraphStore.CountedHolds | tracing-console/src/model/graph.rs:267-276 | Counting the sample in its bin completes the step for the series |
| GraphStore.ContentsAreDetermined | tracing-console/src/model/graph.rs:240-277 | The series are a function of the samples offered |
| GraphStore.TimeOrderIsRecordable | tracing-console/src/model/graph.rs:246-250 | A sample no earlier than all before it can always be recorded |
| GraphStore.TimeOrderIsAllRecordable | tracing-console/src/model/graph.rs:246-250 | Any samples offered in time order, after any others in time order, are all recorded |
| GraphStore.SlotSays | tracing-console/src/model/graph.rs:149-162 | After a first sample later than half a window, a slot holds exactly the samples of its own stretch of time, one window long: none, or their number, sum, extremes and first 4096 values in order |
| GraphStore.WithinIs | tracing-console/src/model/graph.rs:251-276 | The samples of a stretch of time are those of the series within it, in order |
| GraphStore.StoreHolds | tracing-console/src/model/graph.rs:240-277 | Every series of a store is binned so, and origin and latest bin are those of the samples offered |
| GraphStore.BinIdxIs | tracing-console/src/model/graph.rs:251 | Bin b runs from b windows after the origin to just before the next bin |
| GraphStore.OriginIs | tracing-console/src/model/graph.rs:241-245 | The origin lies half a window before the first sample later than that |
| GraphStore.WindowIs | tracing-console/src/model/graph.rs:254-266 | A series keeps the bins from its first to its latest, of those the last 600 |
| GraphView.GraphState.RecordSpan | tracing-console/src/model/graph.rs:727-749 | Offers the span under its walked splits with the metric's value read from exact child sums, and fails exactly when that sample is too late |
| GraphView.GraphState.Rehydrate | tracing-console/src/model/graph.rs:751-775 | The store is offered exactly the ring's spans whose chain of names is the locked stack, in ring order, and this succeeds exactly when they can all be recorded |
| GraphView.GraphState.SpanReceived | tracing-console/src/model/core.rs:335-363 | The store is offered exactly the spans newly in the ring whose chain of names is the locked stack, released waiters included, those already evicted left out, and this succeeds exactly when they can all be recorded; if it then showed a rebuild before and nothing was evicted, it shows one now exactly when the old readings stand |
| GraphView.OnStackIs | tracing-console/src/model/graph.rs:759-763 | A span is charted exactly when the names along its whole chain are the locked stack |
| GraphView.ChartedIs | tracing-console/src/model/graph.rs:759-763 | The charted samples are those of the spans whose chain spells the locked stack, in order |
| GraphView.FeedsAreCharted | tracing-console/src/model/core.rs:346-361 | What an arrival and a rebuild offer are the charted spans of the new part and of the whole ring |
| GraphView.SampleIs | tracing-console/src/model/graph.rs:734-749 | A sample is the span's walked splits, its closing time, and one, its duration, or what its children leave of it |
| GraphView.GraphState.Follow | tracing-console/src/model/core.rs:335-363 | Over a whole batch of arrivals, for total time and count: a chart that showed a rebuild still shows one, if every sample was recorded and nothing was evicted |
| ChartWitnesses.ClosingOrderIsNotEnough | tracing-console/src/model/graph.rs:246-267 | Five spans arriving in closing order: the chart accepts the first release and fails on the second |
| GraphView.RehydrateExtendsIff | tracing-console/src/model/graph.rs:734-775 | With nothing evicted, a rebuild offers the old samples followed by the new ones exactly when the old readings stand, which they always do for total time and count |
| GraphView.SelfTimesStandIff | tracing-console/src/model/graph.rs:739-741 | For self time the old readings stand exactly when every charted span got no more child time or had no self time left |
| ChartWitnesses.SelfTimeDrifts | tracing-console/src/model/graph.rs:734-775 | A charted root, then its child: a rebuild no longer offers what was recorded |
| GraphView.SampleIsStable | tracing-console/src/model/graph.rs:734-749 | A longer ring changes neither a span's series nor its stack, only possibly its value |
| GraphView.ClimbIsStable | tracing-console/src/aggregate/state.rs:193-208 | Appending spans to the ring changes no earlier span's walk |
| GraphView.SameFeedSameChart | tracing-console/src/model/graph.rs:240-277 | Stores offered the same samples under the same window hold the same origin, latest bin and series |
| RateTracker.RateTracker.Record | tracing-console/src/model/core.rs:105-127 | Every bucket keeps the capped count of its half-second; the event is counted in its own half-second or nine on from the last, whichever is earlier, hence in its own exactly when less than five seconds passed since the current bucket opened |
| RateTracker.PauseLandsEarly | tracing-console/src/model/core.rs:111-124 | After a pause of six seconds one event lands nine half-seconds on instead of twelve, the next is right |
| RateTracker.RateTracker.RateHz | tracing-console/src/model/core.rs:129-142 | The rate is the count of the eight completed half-seconds over four |
| RateTracker.ClockIsRightIff | tracing-console/src/model/core.rs:111-124 | Rolling on at most nine buckets reaches the right half-second exactly below ten |
| RateTracker.RollKeeps | tracing-console/src/model/core.rs:119-122 | Rolling on clears the oldest bucket and keeps all the others' meaning |
| RateTracker.OthersAreCompleted | tracing-console/src/model/core.rs:135-142 | The buckets other than the current one are the eight completed half-seconds, wherever the head stands |
| RateTracker.CountAll | tracing-console/src/model/core.rs:98-127 | A run that never falls five seconds behind counts every event in its own half-second and ends in the last one's |
| RateTracker.RateAfter | tracing-console/src/model/core.rs:98-142 | The rate after such a run is the count of the eight half-seconds before the last event's, over four |
| RateTracker.SlotIs | tracing-console/src/model/core.rs:111-124 | A slot is 500 ms long |
| RateTracker.CappedIs | tracing-console/src/model/core.rs:126 | A count is itself below 2^32 and stays at the largest number beyond |
| RateTracker.CompletedIs | tracing-console/src/model/core.rs:131-142 | While no count is cut off, the completed half-seconds together hold exactly the events counted in them |
| TracingIds.RoundTrip | tracing-cache/src/cache.rs:229-249 | Decoding an encoded address returns it, the lane stands in the high bits and the slot plus two in the low ones, and the id is above `DISABLED` and below 2^64 |
| TracingIds.ShiftIs | tracing-cache/src/cache.rs:135-137 | The lane takes as many of the 64 bits as there are lane bits, at least one |
| TracingIds.LaneBits | tracing-cache/src/cache.rs:131-137 | The lane count is the least power of two at or above the requested one clamped to 1..256 |
| SpanCache.StepKeeps | tracing-cache/src/cache.rs:368-450 | Every atomic step of every thread keeps all invariants |
| SpanCache.FreshInv | tracing-cache/src/cache.rs:126-196 | A new cache of any lane count, capacity and threads satisfies them |
| SpanCache.CapacityIs | tracing-cache/src/cache.rs:151-161 | The lanes together have room for the capacity asked for, and no lane more than that takes |
| SpanCache.LaneIs | tracing-cache/src/cache.rs:204-206 | A thread's lane is its key's remainder by the lane count |
| SpanCache.IdsAreUnique | tracing-cache/src/cache.rs:208-226 | Over every interleaving no actual id is handed out twice, none is 0, a thread's ids increase, the counter is a multiple of 1024, and unused reservations end at or below it, those of different threads in different batches |
| SpanCache.TakeKeepsIds | tracing-cache/src/cache.rs:214-226 | Taking or refilling keeps every batch with one thread, and the id taken was never handed out |
| SpanCache.OpenIdsAreSound | tracing-cache/src/cache.rs:229-256 | Every published open id decodes to a slot below the lane's capacity holding the record its sidecar names; an id about to be published is not in use |
| SpanCache.RecordedSpansAreRooted | tracing-cache/src/cache.rs:368-450 | Every recorded span's parent chain consists of recorded spans and ends in a root, whatever the order of exits |
| SpanCache.ClosedOnce | tracing-cache/src/cache.rs:542-567 | Every recorded span is in the slab or closed once, never both; so closed ids are distinct, which is what the aggregator asks |
| SpanCache.NewSpanRecords | tracing-cache/src/cache.rs:368-450 | Whatever other threads do between its steps, `new_span` records one span under an id never recorded before, whose parent is the span the caller meant when it began: the open one it names or, while the thread's stack is in step, the innermost one entered and not exited |
| SpanCache.ResolveFindsMeant | tracing-cache/src/cache.rs:373-401 | For an explicit parent always, otherwise while the stack is in step with what is entered: a parent is found exactly when the caller means one, and it is that one; anything else disables the span |
| SpanCache.MeantIs | tracing-cache/src/cache.rs:373-401 | What it means for a span to be meant, in terms of what is entered and what is open alone |
| SpanCache.ForgetIs | tracing-cache/src/cache.rs:538-540 | Exiting takes the innermost entry of that id off what is entered, and nothing else |
| SpanCache.InStepIffExitsInOrder | tracing-cache/src/cache.rs:523-540 | Over every run, the stack is the list of spans entered and not exited after every prefix if and only if every exit of the thread names the innermost of them or finds none |
| SpanCache.ForgetIsPopIff | tracing-cache/src/cache.rs:538-540 | Taking out the exited span's last entry is dropping the top exactly when it is the top |
| SpanCache.CrossedExitMisleads | tracing-cache/src/cache.rs:538-540 | Enter a, enter b, exit a, from any state with both open: b is still entered, the next contextual parent is a |
| CacheRuns.CrossedExitReached | tracing-cache/src/cache.rs:368-540 | A new cache with one thread gets there |
| CacheRuns.SpanOpens | tracing-cache/src/cache.rs:368-450 | A thread that is idle, has a parent for its span and room in its lane opens it in five steps, under a new tracing id |
| SpanCache.EnterNamesTheSpan | tracing-cache/src/cache.rs:523-536 | The lock-free read of `enter` pushes the id of the very record in the slab, zero for a disabled span |
| SpanCache.PublishNamesTheSpan | tracing-cache/src/cache.rs:444-449 | The tracing id returned was not in use and leads to the record just inserted, in slab and sidecar |
| SpanCache.OthersLeaveMe | tracing-cache/src/thread_state.rs:55-101 | Other threads change neither a thread's stack nor its place in `new_span`, and only add records |
| SpanCache.ParentForIsOk | tracing-cache/src/cache.rs:369-401 | Contextual, root or explicit, the parent of an accepted span is none or an earlier recorded span |
| SpanCache.OpenIsLogged | tracing-cache/src/cache.rs:523-536 | What `enter` reads for an open id is the id of a recorded span |
| SpanCache.StepKeepsSlots | tracing-cache/src/cache.rs:424-449 | Insert, sidecar store, publish and close keep slots, sidecar, open ids and spans in flight consistent |
| SpanCache.StepKeepsLineage | tracing-cache/src/cache.rs:368-540 | Stacks, threads inside `new_span` and recorded spans only ever name recorded spans |
| SpanCache.StepKeepsPlaces | tracing-cache/src/cache.rs:424-449 | Every recorded span stays in exactly one slot or is closed |
| SpanCache.EmitNamesTheSpan | tracing-cache/src/cache.rs:471-520 | An event goes to the open span it names or, while the stack is in step, to the innermost one entered, always a recorded span, and is dropped exactly when it means none |
| SpanCache.StepKeepsOps | tracing-cache/src/cache.rs:471-567 | What each thread sends on are events of recorded spans and spans closed once; a single thread sends every closed span |
| Delivery.DeliverThread | tracing-cache/src/driver.rs:89-113 | For a run of one thread, flushed and drained with no channel full: every closed span is delivered once, in close order, with exactly the events emitted for it in order, if the spans emitted for fit the side buffer (with several threads the same of one thread's own batches) |
| Delivery.DeliverAll | tracing-cache/src/driver.rs:89-113 | For a run of any number of threads: with the closed spans drained in any order, after any sequence of messages, every closed span is delivered once with exactly the messages addressed to it, in channel order, if the addressed spans fit the side buffer |
| EventJoin.Driver.FlushEventBatch | tracing-cache/src/driver.rs:140-166 | The side buffer after a batch of events is that of the history with those events |
| EventJoin.Driver.FlushSpanBatch | tracing-cache/src/driver.rs:115-138 | Each span of a batch leaves with its parked events; each subscriber gets the whole batch, misses it or is removed |
| EventJoin.Driver.DrainSync | tracing-cache/src/driver.rs:93-113 | With distinct spans and parents that fit, each span is offered once, in order, with exactly its events of the batch |
| EventJoin.FanOutIsAllOrNothing | tracing-cache/src/driver.rs:169-188 | Subscribers whose receiver is gone disappear, the others keep their order, and each gets the whole batch or none of it |
| EventJoin.EachEventIsSomewhere | tracing-cache/src/driver.rs:115-166 | For every history and parent, the events delivered or evicted followed by those parked are that parent's events in order |
| EventJoin.OldestIsPushedOut | tracing-cache/src/driver.rs:156-164 | An event pushes out only from a full buffer, only for a span not yet waiting, and then the waiting span with the lowest id with all its events |
| EventJoin.ParkedAtTheEnd | tracing-cache/src/driver.rs:152-155 | An event is parked behind those of its own span, and no other list that stays is touched |
| EventJoin.EventsForIs | tracing-cache/src/driver.rs:140-166 | A span's events are those addressed to it, in order of arrival |
| EventJoin.WaitingIs | tracing-cache/src/driver.rs:115-166 | A span waits while it has an event after which it has not closed |
| EventJoin.RoomIs | tracing-cache/src/driver.rs:160-163 | There is room for as many spans as the capacity says, and for one at least |
| EventJoin.WithEventsIs | tracing-cache/src/driver.rs:126-134 | Delivered spans keep their order, each with its events behind its own |
| EventJoin.BufferIsBounded | tracing-cache/src/driver.rs:140-166 | At most max(1, capacity) parents are parked, none with an empty list |
| EventJoin.DeliveredIff | tracing-cache/src/driver.rs:126-134 | A closing span takes what is parked for it, all its events exactly when none left the buffer before; a corollary of `EventJoin.EachEventIsSomewhere` |
| EventJoin.NoneEvictedIff | tracing-cache/src/driver.rs:115-166 | For every history, no event is pushed out exactly when the spans with events since they last closed always fit max(1, capacity) |
| EventJoin.FittingSpansAreComplete | tracing-cache/src/driver.rs:115-166 | While they fit, a span closing for the first time takes all its events in order |
| EventJoin.CrowdedSpanLosesItsEvent | tracing-cache/src/driver.rs:156-164 | With room for one, events of two spans: the first span is delivered without its event |
| EventJoin.NothingEvictedIff | tracing-cache/src/driver.rs:140-166 | A batch of events evicts nothing exactly when its distinct parents fit |
| ThreadState.ThreadBuffers.FlushPending | tracing-cache/src/cache.rs:294-336 | Both buffers empty; the event channel takes its batch before the span channel takes its own, and a full channel drops a whole batch, otherwise nothing is lost or reordered |
| ThreadState.ThreadBuffers.Emit | tracing-cache/src/cache.rs:510-520 | The event joins the thread's history, and the buffer stays below the batch size |
| ThreadState.ThreadBuffers.Close | tracing-cache/src/cache.rs:558-566 | The span joins the thread's history, and the buffer stays below the batch size |
| ThreadState.RunAndDrain | tracing-cache/src/driver.rs:89-113 | Any sequence of emissions and closings, flushed and drained with no channel full, delivers each closed span once, in close order, with exactly the events addressed to it in emission order, if the spans are distinct and the events' parents fit the buffer |
| ThreadState.EmissionsSnoc | tracing-cache/src/thread_state.rs:131-139 | What a thread emitted are its events in order |

## Left out

- Machine integers: overflow of `u64`, `u128` and `usize` sums and ids is not modelled, apart from the saturations named above and the chart's two subtractions.
- Delivery.DeliverThread: no statement for `Driver::run`, whose two channels race; there an event can reach the driver after its span and stay parked.
- Aggregation.Aggregator.Deserialize: a snapshot with repeated ids, or with waiters for a span that comes into the ring, is not modelled; no aggregator writes one.
- GraphStore.GraphSeriesStore.Record: on failure the sample is not recorded and the offering stops; whether the process panics or loops on the wrapped number depends on the build and is not modelled.
- SpanCache.StepKeeps: the cache is modelled on values as a relation between states, because its threads interleave; memory order below one atomic step, and a thread's cursor shared between two caches, are not covered.
- TracingIds.RoundTrip: shifts and masks are written as multiplication, division and remainder by powers of two, and the bitwise or of two halves that do not overlap as a sum.
- GraphView.GraphState.SpanReceived: the chart's clones of spans and the filter that collects ids before recording them are one lookup per id.
- `BucketState`, `Series`, `Bin`: values inside maps, as the Rust values they are, replaced whole instead of updated in place; there is no aliasing to lose.
- `absorb_resolved` appends to a borrowed vector; the model returns the longer sequence. The log, the window's start and the lost spans are ghost history.
- Sorting is by insertion, with the sorted list shown to be the only one; slab slots are any vacant slot.
- Span target, level and event fields, and `record` adding fields to an open span: carried along unchanged by every operation modelled.
- `GraphSeriesStore::project`, `series_summary`, `series_keys`, percentiles, axes and colours: projections of the bins through floating point or display order.
- `object_pool.rs`: pooled event boxes; allocation reuse has no effect on the events delivered.
- `parent_indices`, `build_color_map`, `assign_series_colors`, `sanitize_for_modal`, `tree_label`, `cycle_sort`: one-function display helpers.
- `CollapseSelected` on a row that is not expanded moves the selection to the parent row; only the collapse itself is modelled.
- The rest of `Model::apply`, rendering, keyboard input, installer, RPC server and client, sampling and level broadcast: input and output, or single-branch state.
