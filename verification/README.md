# Verified models of the memory-audit agent

Dafny models of three parts of the agent, with proofs of what each is for. `dafny verify dfyconfig.toml` checks
the whole project.

## What is modelled

**The durable spool/ship queue.** `Protocol.dfy` is one small-step transition system over a shared directory
(`Storage.dfy`). Its steps are the single system calls of the writer (`internal/spool/spool.go`: append, read,
create and fill the temporary, rename, truncate, list, stat, check, remove, warn), those of the shipper
(`internal/ship/ship.go`: list, read, post, remove, sleep), the life cycle of the process
(`internal/agent/agent.go`: open, join, close, drain, exit), and a crash between any two calls. The server answers
anything. A history that no program step reads records every line appended, every segment published, every removal
and every terminal answer. `Invariant.dfy` states an inductive invariant, `Preservation.dfy` proves that every step
keeps it, and `Theorems.dfy` draws the conclusions, which therefore hold in every interleaving with any number of
crashes.

`Spool.dfy` and `Shipper.dfy` are the same code as classes with the source's fields and loops, over a `Directory`
object (`Directory.dfy`) whose real part is the files and whose ghost part is the run that produced them. Between any
two system calls a method lets the other goroutine take any number of steps, of which it may rely on nothing but a
proved frame. `Directory.Valid` says that the files are the outcome of a run of the protocol, so each method refines
it, and every theorem applies to the objects. `Agent.dfy` adds the source goroutines with their mutex, the shipper
goroutine and the main goroutine, proves that whatever goroutine code permits the protocol permits too, and closes
with what holds at the end. `Shutdown.dfy` proves that the end can always be reached. `Backoff.dfy` is the shared
backoff in 64-bit arithmetic. `SegmentNames.dfy` justifies that the model writes a ULID's number where the directory
has a file name.

**The cgroup selector.** `Glob.dfy` and `Cgroup.dfy` model the `**` matcher, the prefix test that prunes the walk, the
depth cap and the output cap of `internal/collector/cgroup.go`, against an exhaustive preorder walk and a declarative
meaning of globs. Matching one segment (`filepath.Match`) is an arbitrary predicate.

**The DAMON pipeline.** `Iomem.dfy` reads the inclusive ranges of `/proc/iomem` (`pkg/damon/iomem.go`);
`SysfsProgram.dfy` generates the sysfs writes that start a session (`pkg/damon/start_stop.go`) and replays them on a
model of DAMON's admin tree; `Histogram.dfy` is the cold-page histogram (`internal/collector/damon.go`) in wrapping
64-bit arithmetic. `Numbers.dfy` holds words and number formats, `Options.dfy` the option type.

## Assumptions

- The filesystem maps names to contents. Rename is atomic, and a directory read is one atomic look at the names.
- A new ULID is larger than all earlier ones, across restarts too.
- Compression is opaque: a segment file is the lines it decodes to and an arbitrary size. Envelopes are opaque lines.
- Remove, stat and read fail only with "not exist". A request fails only like a retryable answer.
- A crash is the death of the process between two calls. What was written stays.
- The clock never goes back but is otherwise arbitrary, and so is the recovered start time of a resumed active file.
- Cancellation can be seen at any sleep and is seen after finitely much work: the `budget` of a directory is any
  number, and bounds only how much the writer does and how many sleeps complete before then.
- Answers are what the client sees: a segment the server stored before the connection broke counts as not answered,
  and is posted again under the same batch id.
- DAMON's tree: writing `n` to an `nr_` file replaces what it counts by `n` blank nodes; a configuration file cannot
  be written while a kdamond is on; a write can also fail for any other reason.

## Where the code does not do what its comments say

- `internal/collector/cgroup.go:49-50` promises the selection most-shallow first. The walk is a preorder:
  `ShallowFirstIff` says for which globs and caps the promise holds on every tree, `MostShallowFirstIff` on which trees
  it holds for `**`, and `ShallowFirstFails` is an instance.
- `internal/collector/cgroup.go:53` speaks of selection beyond the cap, but the flag is also set when nothing was cut:
  `TruncatedIff` says exactly when it is set, and `TruncatedWithoutLoss` is an instance.
- `internal/spool/spool.go:135-136` says that a file grown too large is rotated first. It is rotated after the append;
  only age rotates first (`RotatesFirstIff`, `LargeFileGrows`).
- `internal/ship/ship.go:91-95` names network errors and 5xx as retryable. So is every status that is neither 2xx nor
  4xx (`RetryIff`).
- `internal/ship/ship.go:37-38` says that the bounds bound the backoff. They do if and only if the lower is at most the
  upper and the upper is below 2^62 ns (`WithinBoundsIff`); configured values are not checked for either.
- `internal/agent/agent.go:66-67` says that `Run` blocks until it is cancelled. With no source and no shipper it does
  not wait for anything (`BlocksIff`).
- `internal/collector/damon.go:40-41` compares ages in microseconds without floating point, as a wrapping 64-bit product.
  A bucket is right if and only if no region's age falls below its threshold by wrapping (`BucketsCountIff`,
  `AlwaysExactIff`); up to an interval of 2^32 + 1 µs none does (`SmallIntervalsExact`), one microsecond later one can
  (`OldestAgeWraps`).
- `pkg/damon/iomem.go:16-21` has callers convert with End+1. That wraps, and monitors nothing, for a range that ends at
  the very last address, and is exact for every other (`HalfOpenExactIff`).

## Model

| member | source | states |
|---|---|---|
| Preservation.Reachable | internal/spool/spool.go:137-306 | The invariant of spool and shipper (catalogue of whole batches, conservation of lines, queue order, justified removals, warnings in step with evictions, what writer and shipper know at each call) holds after every run of any interleaving of writer, shipper, life cycle and crashes. |
| Preservation.StepKeeps | internal/spool/spool.go:163-222 | Every single step of the protocol keeps that invariant. |
| Theorems.Conservation | internal/spool/spool.go:137-306 | No silent loss: at every moment every line ever appended, warnings included, is in the unpublished part of the active file or new in one published segment that is on disk, answered terminally with exactly its bytes, or evicted with a warning in the log, about to be written, or lost to a crash. |
| Theorems.OnePlace | internal/spool/spool.go:137-306 | That place is unique: no line is counted twice. |
| Theorems.AccountedFor | internal/ship/ship.go:143-174 | Each published segment is in one of those places. |
| Theorems.FifoRefinement | internal/spool/spool.go:318-334 | The segments on disk are always the published sequence without its first elements; names increase; removals took the oldest one present; published lines in name order followed by the active file are the append history. |
| Theorems.AnswersInOrder | internal/ship/ship.go:96-112 | Terminal answers come in name order, between two crashes at most one for each segment, and over a whole history repeats are at most as many as crashes. |
| Theorems.WarningsExact | internal/spool/spool.go:258-274 | A warning names a segment if and only if the cap's own removal of it succeeded and the warning is not pending or lost to a crash; at most one per segment, in order; none for a segment the shipper removed. |
| Theorems.CapHolds | internal/spool/spool.go:226-256 | When the check lets the cap return, the real total on disk is within the cap, however many segments the shipper deleted between listing, stats and check, and stays so in any continuation until the next publication. |
| Theorems.EvictsOnlyOverCap | internal/spool/spool.go:254-272 | At the instant a segment is evicted it is the oldest on disk and the real total exceeds the cap. |
| Theorems.PublishedGrows | internal/spool/spool.go:209-211 | What was published and what was appended is never changed later, only extended. |
| Theorems.PublishComplete | internal/spool/spool.go:178-211 | At every moment each listed name holds a whole non-empty batch: the active file as it was when that segment was renamed into place. |
| Theorems.RotationProceeds | internal/spool/spool.go:163-222 | Inside a rotation the writer's next call is always possible: the temporary it renames exists and the listing it checks is not empty. |
| Theorems.EvictedMovesOn | internal/ship/ship.go:116-147 | A shipper that comes back to a segment evicted meanwhile goes on to the next at its next attempt. |
| Theorems.Recovery | internal/spool/spool.go:94-132 | A crash at any step, then any number of interrupted attempts to open and one that succeeds, leaves the active file and every segment as they were, no temporary, and the right size; the only thing lost is a warning that was about to be written. |
| Theorems.CrashCosts | internal/spool/spool.go:209-217 | Over any history, crashes bound what is duplicated and unreported: each makes at most one segment begin with lines already published, which are the whole preceding batch, and at most one eviction go unreported. |
| Theorems.CleanExit | internal/agent/agent.go:116-128 | After a clean end, whether or not anything was published, the active file holds only eviction warnings and no warning is pending; every published segment is accounted for, none is left if the final drain completed, and those left otherwise are whole. |
| Theorems.BundleEvicts | internal/agent/agent.go:108-114 | Without push there is never a shipper and never an answer, so every segment that is gone was evicted by the cap. |
| Theorems.RotatesFirstIff | internal/spool/spool.go:135-142 | A call of `Write` rotates before it appends if and only if the file is not empty and too old; so what the comment says, that a file too large or too old is rotated first, holds of a call if and only if the file is not both too large and young. |
| Theorems.LargeFileGrows | internal/spool/spool.go:135-158 | A run in which it fails: a crash leaves a file too large, and the next call appends to it. |
| Theorems.ActiveSizeExact | internal/spool/spool.go:110-131 | While the process is up, the size the spool keeps is the size of the active file. |
| SpoolDirectory.ShipperFrame | internal/ship/ship.go:143-174 | Any number of shipper steps change nothing of the writer's state, the active file or the log, only remove segments, and do nothing after the join. |
| SpoolDirectory.WriterFrame | internal/spool/spool.go:137-222 | Any number of writer steps leave the shipper's state alone and only extend the history. |
| Spooling.Spool.Open | internal/spool/spool.go:75-133 | Positive options are taken as given, the others become 8 MiB, 60 s and 2 GiB; opening removes every leftover temporary, keeps the active file and all segments, and starts with the right size; an empty file starts now, another one at its modification time. |
| Spooling.Spool.RemoveTmps | internal/spool/spool.go:97-105 | The loop over the leftovers ends with none, and touches nothing else. |
| Spooling.Spool.Segments | internal/spool/spool.go:321-334 | The published names, strictly increasing. |
| Spooling.Spool.Write | internal/spool/spool.go:137-159 | Under any interference the log gains exactly this line between eviction warnings; a file too old is published as it was before the append, one too large with the line at its end, and only then; the active file ends below the rotation size or holding only warnings; after a rotation the real total is within the cap; and without a shipper the segments kept are exactly the longest run of latest ones that fits, over one or two rotations, with one warning per eviction, oldest first. |
| Spooling.Spool.RotateIfAged | internal/spool/spool.go:138-142 | A non-empty file that is too old is published whole before the append, any other is left as it is. |
| Spooling.Spool.AppendEnvelope | internal/spool/spool.go:144-158 | One line is appended, counted, and a file that has reached the rotation size is rotated next. |
| Spooling.Spool.Rotate | internal/spool/spool.go:163-222 | The whole active file becomes the last segment; the new active file is exactly the warnings for the evictions this made necessary; the real total is within the cap; with no shipper running, what is kept is exactly the longest run of latest segments that fits. |
| Spooling.Spool.Publish | internal/spool/spool.go:166-211 | Through four calls with interference between them, the segment published is the active file, whole. |
| Spooling.Spool.Truncate | internal/spool/spool.go:213-219 | The active file is empty, its size zero and its age starts now. |
| Spooling.Spool.EnforceCap | internal/spool/spool.go:226-276 | It ends although the shipper deletes segments, with the real total within the cap and the active file the exact record of its evictions; with no shipper running it keeps exactly the longest run of latest segments that fits, even none, and the warnings name all others, oldest first. |
| Spooling.Spool.CapRound | internal/spool/spool.go:227-275 | A round that is not the last leaves fewer segments, whoever removed the oldest. |
| Spooling.Spool.TotalSize | internal/spool/spool.go:236-253 | Stats every listed name; one that has vanished counts nothing. |
| Spooling.Spool.RemoveListed | internal/spool/spool.go:258-271 | After it the oldest listed segment is gone, and it reports its own removal and no one else's. |
| Spooling.Spool.Warn | internal/spool/spool.go:280-306 | Exactly one warning is added for the eviction just made. |
| Spooling.Spool.Close | internal/spool/spool.go:309-316 | With no other goroutine left: the rest of the active file becomes the last segment, the cap keeps exactly the longest run of latest segments that fits (even none), and the active file is one warning per evicted segment, oldest first. |
| Spooling.KeptIsLongest | internal/spool/spool.go:226-276 | If only the cap removes, every longer suffix than the one kept exceeds the cap. |
| Shipping.Shipper.constructor | internal/ship/ship.go:56-78 | Bounds that are zero or negative become one second and five minutes, and the backoff starts at the lower. |
| Shipping.Shipper.Run | internal/ship/ship.go:96-112 | It ends for any finite amount of interference and of slept-through failures; when it succeeds nothing is left on disk; while the spool is closed it leaves the active file alone; its end decides how the process exits. |
| Shipping.Shipper.ShipListing | internal/ship/ship.go:97-111 | Dealing with a whole listing leaves fewer segments unless something was published meanwhile. |
| Shipping.Shipper.ShipAll | internal/ship/ship.go:106-110 | Each listed segment is gone when the loop passes it. |
| Shipping.Shipper.ShipWithRetry | internal/ship/ship.go:116-138 | It returns with the segment gone and the backoff reset, or because the context was cancelled. |
| Shipping.Shipper.TryOnce | internal/ship/ship.go:118-136 | A terminal outcome resets the backoff, a completed sleep doubles it up to the bound, and every sleep is for the backoff that all earlier attempts led to. |
| Shipping.Shipper.Ship | internal/ship/ship.go:143-174 | It is to be retried if and only if it was posted and answered by neither 2xx nor 4xx; otherwise the segment is gone and the shipper past it. It has not failed if and only if it was posted, the answer was 2xx, and this very call removed the segment. A 2xx is recorded as accepted, a 4xx as rejected, each for the bytes posted. |
| Shipping.Shipper.ReadFile | internal/ship/ship.go:144-147 | The bytes read are the published ones; a name that is gone is passed over. |
| Shipping.Shipper.Post | internal/ship/ship.go:149-173 | A status from 200 to 299 is recorded as an acceptance of these bytes and leads to removal, one from 400 to 499 as a rejection, and anything else, or no reply, leads to a sleep and is not recorded. |
| Shipping.Shipper.Remove | internal/ship/ship.go:163-171 | After a 2xx or 4xx the segment is gone, whether or not the cap was faster, and the result says which: true if and only if it was present and this call removed it. |
| Shipping.RetryIff | internal/ship/ship.go:163-173 | What is documented to be retried is retried; the two agree for a status if and only if it lies in 200-299 or 400-599; a 302 is retried too. |
| Shipping.SleepsWithinBounds | internal/ship/ship.go:116-138 | Every sleep of every run is the lower bound doubled once per failure slept through since the last terminal outcome, capped, and lies within the bounds, across segments and calls. |
| Shipping.DefaultSleeps | internal/ship/ship.go:20-23 | With the default bounds the sleep after k failures in a row is 2^k seconds, at most five minutes, never outside one second to five minutes. |
| Shipping.DefaultShipper | internal/ship/ship.go:56-78 | A shipper built with zero bounds has the default ones. |
| Backoff.ClosedForm | internal/ship/ship.go:129-136 | The backoff after any history of attempts is min(minimum times two to the current streak, maximum). |
| Backoff.Overflows | internal/ship/ship.go:133-136 | If the upper bound is 2^62 or more, enough failures wrap the doubling below the lower bound. |
| Backoff.WithinBoundsIff | internal/ship/ship.go:56-78 | The backoff stays within its bounds in every history of 64-bit arithmetic if and only if lower <= upper < 2^62. |
| Agents.NeverBlocked | internal/agent/agent.go:94-128 | A step that enters the protocol (a write, the shipper's start, the join, the close, the drain) is possible there whenever goroutine code makes it: writes never overlap, and none overlaps the close or the drain. |
| Shutdown.Proceeds | internal/agent/agent.go:116-128 | Once cancelled, in every reachable state before it returns the agent has a step it can take that starts nothing new: no call is stuck, and no goroutine waits for one that is. |
| Shutdown.SpoolCloser | internal/spool/spool.go:163-276 | Undisturbed, every single step inside a call of `Write` or `Close` brings it closer to its return: rotations, then the segments left over the cap, then the freshness of the listing, then the position. |
| Shutdown.ShipperCloser | internal/ship/ship.go:96-138 | If every further reply is a failure and the next sleep is cut short, each step inside `Run` brings it closer to its return, also from the middle of a listing that has gone stale. |
| Shutdown.CanShutDown | internal/agent/agent.go:99-128 | From every state that the agent reaches and in which it is cancelled, steps that start nothing new lead to its return: whatever is going on, a shutdown can be completed. |
| Agents.StepKeepsAgent | internal/agent/agent.go:140-174 | Every step keeps the mutex discipline and the order of shutdown. |
| Agents.EndsOnlyCancelled | internal/agent/agent.go:157-173 | In every state the agent reaches: a cancellation is among its steps if and only if it knows it is cancelled; a source or the shipper's goroutine has left its loop, or `Run` has joined its goroutines (if it has any), only then; and a waiting or looping source can tick, and then collects, and the shipper's goroutine can tick. |
| Agents.BlocksIff | internal/agent/agent.go:66-67 | That `Run` blocks until it is cancelled holds if and only if there is a source or a shipper. |
| Agents.TickShips | internal/agent/agent.go:193-216 | Each tick of the shipper's goroutine starts `Shipper.Run`, and so does the final drain; the call is always possible there. |
| Agents.Refines | internal/agent/agent.go:75-129 | Every run of the agent is a run of the protocol, and the log gains exactly the envelopes the sources passed to the spool, in mutex order. |
| Agents.MutualExclusion | internal/agent/agent.go:147-151 | At most one source is inside the spool at any time. |
| Agents.CloseIsLast | internal/agent/agent.go:176-189 | A source never collects or writes after its close. |
| Agents.ClosesComeFirst | internal/agent/agent.go:116-124 | Every source has been closed before the spool is closed and before the final drain. |
| Agents.Delivers | internal/agent/agent.go:141-155 | A source passes on everything it collects exactly once and in order, and holds the rest until then. |
| Agents.EnvelopesAtExit | internal/agent/agent.go:116-128 | After a clean end every envelope is in a published segment that is accounted for, and on disk only if the drain did not complete. |
| Agents.EndToEnd | internal/agent/agent.go:75-129 | When the agent returns, each source has written every envelope of every batch it collected, once and in order; the log has gained exactly these, in mutex order; each is accounted for; and the active file holds only eviction warnings. |
| Agents.Finish | internal/agent/agent.go:118-128 | Close then drain: success means that no segment is left, an incomplete drain that all that is left is whole. |
| SegmentNames.NameOrder | internal/spool/spool.go:318-334 | File names sort as the ULIDs do, and distinct ULIDs have distinct names. |
| SegmentNames.BatchIdIsUlid | internal/ship/ship.go:176-180 | A batch id is the segment's ULID: the same for every attempt, different for different segments. |
| SegmentNames.Suffixes | internal/spool/spool.go:178-185 | Segments end in `.jsonl.zst` and temporaries in `.jsonl.zst.tmp`; the listing's suffix matches segments and neither temporaries nor the active file; the clean-up's matches temporaries only. |
| SegmentNames.SegmentsListing | internal/spool/spool.go:321-334 | The sorted names with the segment suffix are exactly the published segments, oldest first. |
| Glob.MatchIffCut | internal/collector/cgroup.go:125-148 | A path matches if and only if it can be cut into consecutive pieces, one segment per ordinary element and any number per `**`. |
| Glob.MatchConcat | internal/collector/cgroup.go:128-148 | A concatenated pattern matches exactly the paths that split into a part for each. |
| Glob.AnyCollapses | internal/collector/cgroup.go:132-139 | Adjacent `**` collapse into one, anywhere in a pattern. |
| Glob.PrefixSound | internal/collector/cgroup.go:150-175 | A path below which anything matches is never pruned. |
| Glob.PrefixExact | internal/collector/cgroup.go:150-175 | With satisfiable elements, a path survives pruning if and only if some extension of it matches. |
| Glob.IsPossiblePrefix | internal/collector/cgroup.go:162-175 | The loop computes the prefix relation of these two lemmas. |
| Glob.AnyMatches | internal/collector/cgroup.go:116-123 | True if and only if some glob matches. |
| Glob.IsPossiblePrefixForAny | internal/collector/cgroup.go:153-160 | True if and only if the path is a possible prefix for some glob. |
| Cgroups.PrunedIsEmpty | internal/collector/cgroup.go:106-110 | Nothing is selected below a directory the walk does not enter. |
| Cgroups.VisitsSelect | internal/collector/cgroup.go:79-113 | The pruned walk meets exactly as many selected directories as the exhaustive one. |
| Cgroups.Cgroup.Walk | internal/collector/cgroup.go:79-113 | From any selection so far, the walk adds exactly the selected directories of the exhaustive walk up to the cap, sets the flag if and only if an entry was looked at when full, and fails if and only if one of those records cannot be read. |
| Cgroups.Cgroup.Visit | internal/collector/cgroup.go:90-110 | The same for one entry. |
| Cgroups.Cgroup.Collect | internal/collector/cgroup.go:54-72 | On the tree itself: everything returned is a directory one to five segments deep whose path matches some glob, and unless the selection was cut everything of that kind is returned; cut, it has exactly `max` elements; in any case it is the first `max` of the exhaustive selection in preorder; a v1 host gives an empty result and no error. |
| Cgroups.SelectedIff | internal/collector/cgroup.go:21-40 | The exhaustive selection is the directories one to five segments deep whose path matches some glob. |
| Cgroups.SelectionInOrder | internal/collector/cgroup.go:85-112 | With distinct names in each directory, ancestors come before descendants and nothing comes twice. |
| Cgroups.TruncatedIff | internal/collector/cgroup.go:85-89 | The flag is set if and only if something was cut, or the selection is exactly full and the last entry looked at was not selected. |
| Cgroups.TruncatedWithoutLoss | internal/collector/cgroup.go:85-92 | An instance where it is set although nothing was cut: a plain file follows. |
| Cgroups.ShallowFirstIff | internal/collector/cgroup.go:49-50 | For any globs and cap, what is returned comes in order of depth on every tree, if and only if there are no two selectable paths such that the shorter is no ancestor of the longer and fewer than `max` directories are selected on the way down to the longer. |
| Cgroups.AnyShallowFirstIff | internal/collector/cgroup.go:49-50 | For `**`, that is a cap of at most two. |
| Cgroups.MostShallowFirstIff | internal/collector/cgroup.go:49-50 | For `**`, any cap and a given tree, it does if and only if among the first `max` directories none with directories of its own is followed by a sibling. |
| Cgroups.ShallowFirstFails | internal/collector/cgroup.go:49-50 | An instance of what is returned with a cap of three: `a`, `a/b`, then `c`. |
| Histogram.BucketRegions | internal/collector/damon.go:58-80 | The nested accumulation loops, in wrapping arithmetic: on disjoint regions the total is right, `cold60s` is the number of addresses unaccessed for 60 s if and only if no age falls below 60 s by wrapping, likewise for 300 s, 1 h, 6 h and 24 h, and `hot` is the rest if and only if that holds for 60 s; if the ages fit, all of it is right. |
| Histogram.AddRegion | internal/collector/damon.go:62-75 | One region goes into every bucket it is old enough for, and into no other. |
| Histogram.SumCounts | internal/collector/damon.go:62-64 | On disjoint regions a sum of sizes is the number of addresses in the regions that pass. |
| Histogram.BucketsCount | internal/collector/damon.go:58-80 | On disjoint regions whose ages fit, nothing wraps: each bucket is the number of addresses in unaccessed regions at least that old, the total is all addresses, and hot is exactly the rest. |
| Histogram.ColdMeans | internal/collector/damon.go:52-57 | An address counts as cold at a threshold if and only if it lies in a region with no access whose age times the interval reaches it. |
| Histogram.BucketsCountIff | internal/collector/damon.go:58-80 | On any disjoint regions the total is right; each cold bucket is that number of addresses if and only if no unaccessed, non-empty region's age falls below the bucket's threshold by wrapping; and hot is exactly the rest if and only if that holds for the first bucket. |
| Histogram.AlwaysExactIff | internal/collector/damon.go:69-74 | For a given interval, the histogram of every list of disjoint regions is right if and only if no 32-bit age falls below one of the five thresholds by wrapping. |
| Histogram.SmallIntervalsExact | internal/collector/damon.go:69-74 | Up to an interval of 2^32 + 1 every histogram of disjoint regions is right. |
| Histogram.BucketsNested | internal/collector/damon.go:56-57 | The buckets are nested, and hot plus the coarsest cold bucket is the total. |
| Histogram.AllAgesFitIff | internal/collector/damon.go:69 | The 64-bit product holds every 32-bit age if and only if the interval is at most 2^32 + 1. |
| Histogram.OldestAgeWraps | internal/collector/damon.go:69-74 | One microsecond beyond that, a page idle as long as an age can say is misjudged and not counted cold for six hours. |
| Histogram.BucketsPermuted | internal/collector/damon.go:62-75 | The order of the regions does not matter, whatever they are. |
| Histogram.BucketsSplit | internal/collector/damon.go:62-75 | Splitting a region into two of the same age and access count does not matter, wherever it is cut. |
| Iomem.ParseIomemReader | pkg/damon/iomem.go:49-83 | All ranges of the listing in order if no line is bad, or the error of the first bad line, or the scanner's own error. |
| Iomem.ReadExact | pkg/damon/iomem.go:54-77 | A line yields a range if and only if it is two hexadecimal 64-bit numbers, a dash between, then the System RAM label, unindented and not all zero; the all-zero range is exactly what is reported as masked. |
| Iomem.ReadComplete | pkg/damon/iomem.go:54-78 | What any line says, by its two number strings: an error naming the first if it is no 64-bit hexadecimal number, else one naming the second, else masked if both are zero, else the range; and a line says nothing if and only if it is no unindented System RAM entry with a dash. |
| Numbers.HexLimits | pkg/damon/iomem.go:67-74 | Hexadecimal numbers are read in either case, up to sixteen digits f; 2^64 is an error. |
| Iomem.ReadsLine | pkg/damon/iomem.go:32-35 | What is read from the line of any resource entry, at any depth, label and width. |
| Iomem.ReadsListing | pkg/damon/iomem.go:32-35 | Round trip: reading the listing of any resource tree returns exactly its top-level System RAM ranges in order, or says masked if one of them is all zero. |
| SysfsProgram.MaxValue | pkg/damon/start_stop.go:33 | The constant string is the largest 64-bit number. |
| SysfsProgram.RegionsLeave | pkg/damon/start_stop.go:66-76 | Region files are written only after their nodes exist, and region by region the blank nodes become the half-open ranges in order. |
| SysfsProgram.ProgramLeaves | pkg/damon/start_stop.go:56-87 | On any tree with nothing on, the empty one included, every write finds its file and is accepted, and the tree left is the configured session, whatever was there before. |
| SysfsProgram.SessionLeaves | pkg/damon/start_stop.go:50-97 | With "on" as the last write, exactly that session runs. |
| SysfsProgram.FailureStaysOff | pkg/damon/start_stop.go:89-97 | A start that fails at any write turns nothing on, and if something was still on it has changed nothing. |
| SysfsProgram.NeverRefused | pkg/damon/start_stop.go:50-97 | If nothing is on after the first write, no later write can fail for a missing node, a bad value or a busy tree. |
| SysfsProgram.OnIsLast | pkg/damon/start_stop.go:89-97 | "on" is written at most once, last, after every other write was accepted. |
| SysfsProgram.Sysfs.WriteFile | pkg/damon/start_stop.go:29-31 | A write is accepted as the tree allows, or fails and changes nothing. |
| SysfsProgram.Sysfs.Writes | pkg/damon/start_stop.go:56-87 | The loop that appends the writes builds the program the lemmas above are about. |
| SysfsProgram.Sysfs.Perform | pkg/damon/start_stop.go:89-93 | Writes in order up to the first failure, leaving the effect of exactly those accepted. |
| SysfsProgram.Sysfs.Start | pkg/damon/start_stop.go:45-100 | Success leaves exactly the configured session on; failure leaves nothing on that was not on before; the log is "off", whose failure is ignored, then the program up to the first failure. |
| SysfsProgram.Sysfs.Stop | pkg/damon/start_stop.go:104-106 | Turns the session off and leaves the tree as it was otherwise. |
| SysfsProgram.HalfOpenExactIff | pkg/damon/start_stop.go:68-76 | The half-open regions hold exactly the addresses of the inclusive ranges, one by one, if and only if no range ends at the last address. |
| SysfsProgram.SessionMonitorsRam | internal/agent/sources.go:149-163 | From listing to monitoring: a session started on what was read monitors an address if and only if it is in a top-level System RAM entry. |

## Left out

- Errors of the filesystem other than "not exist" (disk full, permissions, failed sync), torn writes and power loss;
  with them `Write`, `rotate` and `Close` returning early.
- Compression, JSON, HTTP and TLS, and the errors of building a request: opaque, as stated under Assumptions.
- 64-bit overflow of file sizes and their totals.
- Real time: tickers, jitter, timers and the length of the shutdown timeout. Scheduling is arbitrary.
- Spooling.Spool.Open: does not model directory creation; the modification time of a resumed file is any time.
- Spooling.Spool.Write: does not model a line that cannot be encoded; lines are given.
- Cgroups.Cgroup.Collect: does not model a directory that cannot be read or a failing stat of the root, both of which
  end the collection with an error; only records that cannot be read do so here.
- Splitting glob strings at slashes; globs are given as segments.
- Iomem.ParseIomemReader: starts from the lines the scanner delivers, not from bytes.
- SysfsProgram.Sysfs.Start: file paths are a structured type; joining them into strings is not modelled.
- The other checks at the start of `agent.Run` (interval, spool present) and the building of sources; a source is any
  sequence of envelope batches.
- Reading single cgroup files, pressure, memory and GPU statistics, pod enrichment, configuration, command lines and
  scripts: parsing and plumbing with easy claims.
- Regions read back from DAMON (`pkg/damon/regions.go`): the histogram takes any regions.
