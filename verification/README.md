# Verification model of the memory-access profiler

The profiler is preloaded into a program. It opens one perf sampling ring per thread, drains the
rings, walks the records in them and keeps hit and miss statistics. Beside it the repository
carries a k-means workload to profile. This project models the four parts with state worth
reasoning about and proves what they promise.

| files | part of the program |
|---|---|
| `PerfRecords.dfy`, `Encoding.dfy`, `Ring.dfy`, `RecordWalk.dfy` | the perf record format as it is read and as it is written, the ring with its ever-growing head and reduced tail, the record walk |
| `Statistics.dfy`, `Counters64.dfy`, `Collection.dfy`, `SampleCollector.dfy` | the counters, exact and in 64 bits, runs of appends and drains over any number of rings, and the code itself over arrays and objects |
| `SplitDrain.dfy` | a drain taken apart: appends between reading the head, copying each byte, analysing and writing the tail |
| `Lifecycle.dfy`, `LiveRings.dfy`, `Measures.dfy`, `Sampling.dfy` | start, stop, resume and end of measures, their rings and which of them are still mapped, the descriptor list |
| `Handlers.dfy` | the overflow handler and the closing report |
| `BufferSizing.dfy`, `Registry.dfy`, `ThreadRanks.dfy` | the refresh count, the table of threads, the interleaved steps of thread creation |
| `KMeansModel.dfy`, `KMeans.dfy` | Lloyd's iteration |
| `Arithmetic.dfy`, `Wrappers.dfy` | integer facts and the option type the others share |

The code that updates state in place is written as methods on classes and arrays, each proved
against a specification over values; what the program promises is then proved about those
specifications for every input, run or reachable state.

Points a reader should know:

- A record is a byte string whose header announces its length. How a record's bytes become a
  sample (weight and level flags) is a parameter, `Codec`, over which everything is quantified.
- The premise that unread bytes stay strictly below the ring size is used where it is needed and
  shown to be exact: `Ring.FullReadsAsEmpty` says a full ring reads as empty, and
  `Ring.ReducedTailSpace` that the reduced tail the profiler writes back still tells the kernel
  exactly which records keep the premise.
- A refresh burst stays below the ring if and only if three does not divide the page count;
  `include/numap.h:117` asks for powers of two, so it always does.
- Descriptors 0 to 2 are taken to be open when sampling begins, so the kernel never hands out 0,
  the value of an unopened slot.
- The mean of a cluster without points is 0.0 / 0 in the source, which is not a number and loses
  every comparison. The model keeps that case, so the descent needs no premise on clusters.
- The square root is a function parameter of which only its defining property is used.
- Ending one measure frees the whole descriptor list. `Lifecycle.SearchFindsRecent` says what the
  handler's search still finds: exactly the descriptors opened since the last end. That every
  mapped slot is found therefore holds up to the first end only; `Lifecycle.EndBreaksSearch`
  gives a run of two measures after which it fails, and `Lifecycle.StartAfterEndIsDeaf` shows
  that restarting a measure that kept its pages reports success and repairs nothing.
- Ending a measure also unmaps its pages and leaves their addresses in its slots. A later start
  skips those slots and returns 0, and the next drain would read memory that is gone. So a start
  that returns 0 leaves every thread with a valid ring of its own exactly if none of the slots it
  skipped was dangling (`Sampling.Sampler.Start`), which over every run means exactly if the
  measure was not ended since any of them was opened (`LiveRings.StartLeavesAllLive`);
  `LiveRings.RestartDangles` is the run init, start, end, stop, start in which it fails. A
  measure's first start always does leave it so (`Sampling.Sampler.InitAndStart`). The handler
  and the closing report ask for the rings they drain to be mapped; the code does not check.
- The array of thread slots has 1024 entries and nothing checks its length. Which interleavings
  write past its end is said exactly (`ThreadRanks.WritesStayInside`), with one that does
  (`ThreadRanks.ThreadPastTheEnd`).
- The drain analyses linear copies only. On copies of whole records no record runs past the end
  (`SampleCollector.CopiesNeverSplit`), so the rebuilding of split records is never reached there.
- The closing report clears the counters before draining again and the second drain finds
  nothing, so it prints totals over cleared counters (`Handlers.FinalizeMeasure`).
- `__process_samples` in the comments and in `mem_sampling_collect_samples` is `_process_samples`
  in the code; the model follows the latter.

## Model

| member | source | states |
|---|---|---|
| PerfRecords.WalkOfStream | src/numap_analyse.c:192-230 | Walking a stream of whole records visits each record once, at the offset where the previous ones end, with its type and size, and stops exactly at the end; the bytes visited are the records. |
| PerfRecords.StreamDeterminesRecords | src/numap_analyse.c:192-230 | A record stream can be cut into records in one way only. |
| PerfRecords.WalkAdvances | src/numap_analyse.c:192-230 | For any buffer and any nonzero sizes, each visit starts where the last one ended, and the walk finishes exactly if it passes the end. |
| Encoding.HeaderDecodes | src/numap_analyse.c:190-194 | The header read anywhere in a buffer is the one that was written there: 32-bit type, 16-bit size, lowest byte first. |
| Encoding.HeaderEncodes | src/numap_analyse.c:190-194 | Any eight bytes are the header written for the type and size that are read in them. |
| Encoding.EncodedIsRecord | src/numap_analyse.c:282-284 | A header with its own length and an aligned payload make a record, which is a sample exactly if its type is 9. |
| Encoding.WalkOfEncoded | src/numap_analyse.c:190-230 | Over the bytes of any written records the walk visits each with the type and size it was written with, and hands on as many samples as there are records of type 9. |
| Encoding.CopyCounts | src/numap_analyse.c:163-231 | The samples counted in a linear copy of any written records are those of type 9. |
| Encoding.OneSample | src/numap_analyse.c:194-222 | One written record of type 9 is one sample, decoded from just its bytes. |
| Ring.LogicalBytes | src/numap_analyse.c:246-281 | The live bytes number (head - tail) mod size, and the i-th is ring byte (tail + i) mod size, with one block or two. |
| Ring.UnreadIsLogSuffix | src/numap_analyse.c:350-370 | The reduced head and tail denote exactly the records not yet drained, and are equal exactly when there are none. |
| Ring.AppendKeepsConsistent | src/numap_analyse.c:350-361 | A kernel append that fits keeps the ring in agreement with the log, through any wraparound, and adds just the new record to what is unread. |
| Ring.DrainKeepsConsistent | src/numap_analyse.c:348-371 | A drain keeps the ring in agreement with the log and leaves nothing unread. |
| Ring.FullReadsAsEmpty | src/numap_analyse.c:242-244 | A drain sees the whole gap between reader and head if and only if the gap is less than the ring; a full ring reads as empty. |
| Ring.ReducedTailSpace | src/numap_analyse.c:370 | The free space computed from the reduced tail admits a record exactly when it fits strictly below the ring size. |
| RecordWalk.ConsistentIsRing | src/numap_analyse.c:171-190 | Every ring reachable by appends and drains holds whole 8-aligned records between its tail and head, so no header straddles its end. |
| RecordWalk.WholeRecordInPlace | src/numap_analyse.c:205-211 | A record that does not cross the end of the ring lies there as the same bytes as in the linearised copy. |
| SampleCollector.InPlaceMatchesCopy | src/numap_analyse.c:163-231 | Walking a ring in place counts as many samples as walking its copy, and the same samples when no record is split. |
| SampleCollector.CopiesNeverSplit | src/numap_analyse.c:204-212 | In a linearised copy of whole records no record runs past the end. |
| SampleCollector.Collector.AnalyzeBuffer | src/numap_analyse.c:163-231 | In place or on a copy the walk terminates and visits the records of the linear walk, the i-th at (tail + its linear offset) mod size; every sample is counted once; a copy never wraps whatever the sizes, a ring wraps at most once and ends at its head. |
| SampleCollector.Collector.NextOffset | src/numap_analyse.c:224-229 | With 32-bit offsets, stepping over a record and wrapping never overflows. |
| SampleCollector.Collector.CountSample | src/numap_analyse.c:200-223 | A sample record is counted once, decoded in place or rebuilt when it runs past the end. |
| SampleCollector.Collector.Linearise | src/numap_analyse.c:245-281 | The fresh copy holds exactly the live bytes in order, from one block or two. |
| SampleCollector.Collector.DrainQueue | src/numap_analyse.c:297-308 | A queue of any number of copies is emptied, most recent first, adding the bytes and samples of each to the totals; it is not exactly when the walk over some copy does not finish; how it fails is how the first such walk ends. |
| SampleCollector.Collector.CopyBuffer | src/numap_analyse.c:237-309 | The call completes exactly on chunks with a valid first header whose walk finishes, and then ledgers and counters move by exactly that chunk and nothing is queued; otherwise it ends at the first header's assertions, at a zero size, or at a header outside the chunk, each exactly when that is the case. |
| SampleCollector.Collector.ProcessSamples | src/numap_analyse.c:341-372 | Every ring of a measure is drained once, in order, with the tail set to the reduced head; ledgers and counters absorb the unread bytes of each. |
| Measures.MetadataPage.KernelAppend | src/numap_analyse.c:350-361 | Writing a record at the head byte by byte, around the end if need be, has the effect of the specification's append. |
| Collection.ReadExactlyOnce | src/numap_analyse.c:341-372 | Over every interleaving of appends, drains and resets, the bytes copied out of a ring are the stream of the records appended to it before its last drain: none lost, repeated or reordered; the tail is their length modulo the ring size. |
| Collection.LedgersBalance | src/numap_analyse.c:282-308 | After every run the byte total, the sample total and the buffer total are those of the records drained, and the two access types' counts sum to the samples drained since the last reset. |
| Collection.CountersSummarise | src/numap_analyse.c:64-153 | After every run each counter is the number, minimum, maximum and sum of the weights of exactly the samples drained since the last reset that select it. |
| Collection.TotalsSummarise | src/numap_analyse.c:26-30 | After every run the total count, the total weight and the count of unavailable levels are the number, the summed weight and the number flagged so of exactly the samples drained since the last reset. |
| Collection.RunMatches | src/numap_analyse.c:341-372 | After every run the rings, the ledgers and both access types' counters are the ones the events alone prescribe. |
| Collection.PassIsDrains | src/numap_analyse.c:348-371 | From any state a pass over some of the rings is the same as single drain steps, one ring after another. |
| Collection.PassOnRun | src/numap_analyse.c:348-371 | A pass over a measure's rings takes the state of any run to the state of the run that goes on with one drain of each: those rings drained as `_process_samples` drains them, the others untouched, the ledgers with what was unread. |
| SplitDrain.RunRefines | src/numap_analyse.c:348-371 | Whatever the kernel appends between reading the head, copying each byte, analysing the copy and writing the tail, the rings, ledgers and counters are at every moment those of a run in which the drain was one step where its head was read, up to the tail not yet written. |
| SplitDrain.DrainIsAtomic | src/numap_analyse.c:348-371 | Between drains the state is exactly that of the run of single steps, so all that holds after those runs holds here. |
| SplitDrain.CopiedExactlyOnce | src/numap_analyse.c:266-281 | At every moment of every drain, mid-copy too, what was copied out of a ring is a prefix of the stream appended to it, and with the copy complete exactly what was appended before the head was read. |
| SplitDrain.AppendUnderWay | src/numap_analyse.c:350-370 | An append that fits against the old tail changes no byte the drain under way has still to copy, and is one the finished drain would have admitted. |
| SplitDrain.RunCanFinish | src/numap_analyse.c:348-371 | Every run can be brought to the end of the drain under way, without help from the kernel and without changing what it amounts to. |
| SplitDrain.AppendInMidCopy | src/numap_analyse.c:348-371 | There is a run in which a record is appended after the first byte of a drain is copied and the drain goes on to its end, having copied exactly the record before. |
| SplitDrain.AppendsAreFree | src/numap_analyse.c:350-370 | Wherever a drain stands, the kernel may append a record exactly if it stays below the ring with what is unread from the tail last written. |
| Collection.StepMatches | src/numap_analyse.c:341-372 | One append, drain or reset takes a state prescribed by the events so far to the one prescribed by the events including it. |
| Collection.SecondDrainIdle | src/numap_analyse.c:242-244 | A second drain with nothing appended leaves the ring as it is and finds nothing. |
| Collection.SecondPassIdle | src/numap.c:1294-1301 | A second pass over any number of rings changes no ring, ledger or counter. |
| Statistics.UpdateCounters | src/numap_analyse.c:64-153 | For each of the nine levels the hit counter moves if a flag of the level and Hit are set, the miss counter if a flag of the level and Miss are set and Hit is not, and neither otherwise, said in terms of the flags alone; the totals move with every sample; the other access type is untouched. |
| Statistics.AddSampleMoves | src/numap_analyse.c:64-153 | The same of the specification the runs are built on. |
| Statistics.BucketsSummarise | src/numap_analyse.c:53-62 | Each hit or miss counter is the count, minimum, maximum and sum over exactly the samples that select it, starting from the reset values. |
| Statistics.BucketBounds | src/numap_analyse.c:53-62 | A non-empty counter's sum lies between its count times its minimum and its count times its maximum. |
| Statistics.LevelWithinTotals | src/numap_analyse.c:73-153 | Hits and misses of a level together exceed neither the total count nor the total weight. |
| Statistics.OrderIrrelevant | src/numap_analyse.c:64-153 | The counters depend only on the multiset of samples. |
| Counters64.CountersModuloWord | src/numap_analyse.c:53-62 | After any samples the counters kept in 64 bits are the exact ones modulo 2^64, minimum and maximum included unchanged. |
| Counters64.ExactBelowWord | src/numap_analyse.c:64-153 | From a reset on, fewer than 2^64 samples of a total weight below 2^64 leave every 64-bit counter exact. |
| SampleCollector.Collector.InitMemCounters | src/numap_analyse.c:26-51 | A reset puts both access types at the empty counters. |
| BufferSizing.BurstBelowRing | src/handle.c:661-663 | The refresh count's worth of sample records is strictly less than the ring if and only if three does not divide the page count. |
| BufferSizing.PowerOfTwoBurst | include/numap.h:117 | For every power-of-two page count it is strictly less, and the refresh count is positive. |
| BufferSizing.BurstFills | src/handle.c:661-662 | The refresh count is the largest number of 48-byte records that fits in the pages. |
| BufferSizing.PagesMakeRings | include/numap.h:117 | Every power-of-two page count up to 2^19 gives a ring size the 32-bit offsets can address. |
| BufferSizing.BurstIsAdmissible | src/handle.c:661-663 | From a drained ring a refresh burst of records no larger than a sample record can be appended whole, and the next drain finds exactly it. |
| Lifecycle.SearchFindsRecent | src/numap.c:201-222 | In every state of every run of init, start, stop, resume and end, with opens failing anywhere, the handler's search returns a measure for a descriptor exactly when that measure opened it since the last end. |
| Lifecycle.EveryRunFindsOwners | src/numap.c:201-222 | In every state of every run up to the first end, a slot is mapped exactly when the list has its node, and the handler's search returns the measure that opened the descriptor. |
| Lifecycle.AgreementFindsOwner | src/numap.c:209-222 | When slots and list agree there is exactly one node for each descriptor, and the search finds its measure. |
| Lifecycle.PerformAgrees | src/numap.c:1013-1086 | Each call other than an end keeps the slots of every measure in agreement with the list. |
| Lifecycle.OpensOnlyUnmapped | src/numap.c:1036-1042 | A start never reopens a mapped slot, and one that returns 0 leaves every slot mapped. |
| Lifecycle.OpeningStopsAtFailure | src/numap.c:1044-1049 | A start that cannot open a slot returns -3 with that slot at -1, every slot before it mapped and every slot behind it as it was. |
| Lifecycle.OneNodePerOpenedSlot | src/numap.c:1073-1080 | A start, failed or not, adds one node for each slot it maps and removes none. |
| Lifecycle.StopAndRetry | src/numap.c:1019-1049 | A start that fails midway leaves the measure marked started; after a stop, starting again ends exactly where one unfailing start would have. |
| Lifecycle.EndForgetsEveryone | src/numap.c:1257-1275 | After an end the search finds nothing for anyone, and list and slots agree if and only if no measure had a mapped slot. |
| Lifecycle.StartAfterEndIsDeaf | src/numap.c:1036-1042 | After an end, stopping and starting a measure whose slots kept their addresses returns 0, adds no node, and the search finds none of its descriptors; if it was that measure that ended, not one of its pages is there. |
| Lifecycle.EndBreaksSearch | src/numap.c:1257-1275 | A run of two measures reaches a state in which one is started and its descriptor open, but the search no longer finds it because the other was ended. |
| LiveRings.SlotLiveness | src/numap.c:1269-1273 | In every state of every run a slot has its page exactly when it was opened and its measure has not been ended since. |
| LiveRings.StartLeavesAllLive | src/numap.c:1036-1042 | When a start returns 0, every thread has its ring if and only if the measure was not ended since any of the slots the start skipped was opened. |
| LiveRings.RestartDangles | src/numap.c:1257-1275 | Init, start, end, stop, start: the last start returns 0 and marks the measure started, and its slot holds the address of a page that was unmapped. |
| Measures.Measure.ReadyIsAllLive | src/numap_analyse.c:348-351 | A measure's rings can all be drained exactly if every slot holds a page that is still mapped. |
| Measures.Measure.Init | src/numap.c:932-957 | Initialising leaves the measure stopped, every descriptor 0 and every page address null. |
| Measures.Measure.NewRingsStartRuns | src/numap.c:1051-1072 | A measure whose rings are all new stands where the runs of appends and drains start. |
| Sampling.Sampler.Start | src/numap.c:1013-1086 | The call does to measures, list and result code what the specification's start does, for any answers of the kernel; pages are kept or new and empty, and after a 0 every thread has a valid ring sharing no memory with another exactly if no slot was dangling before; a started measure is refused with -5, and any other start returns 0 or -3 and leaves it marked started. |
| Sampling.Sampler.InitAndStart | src/handle.c:643-669 | A first start that returns 0 leaves every thread with a ring, and the rings are those at which the runs of appends and drains start. |
| Sampling.Sampler.OpenSlots | src/numap.c:1036-1081 | The loop over the slots ends with the slots, list and code of the specification's opening; each slot kept its page or got a new, empty, valid ring of its own. |
| Sampling.Sampler.OpenSlot | src/numap.c:1044-1080 | A successful opening records the descriptor, maps a fresh empty ring, puts a node in front of the list and leaves the other slots' pages alone. |
| Sampling.Sampler.FindMeasure | src/numap.c:209-222 | The loop over the list is the search for the first node with the descriptor. |
| Sampling.Sampler.Stop | src/numap.c:1236-1255 | When stopped it returns -6 and changes nothing; when started it returns 0 and clears the started mark only. |
| Sampling.Sampler.Resume | src/numap.c:996-1011 | When started it returns -5 and changes nothing; when stopped it returns 0 and sets the started mark to 1 only. |
| Sampling.Sampler.End | src/numap.c:1257-1275 | The list is freed to the last node, whoever owns it, the measure's pages are unmapped with their addresses left in the slots, and its descriptors are closed. |
| Handlers.GenericHandler | src/numap.c:1280-1302 | However many rounds it makes, if any, the handler leaves the measure started and the measure's rings, the ledgers and counters as one stop, drain and resume leave them; the read counters stay as they were. |
| Handlers.LastDrain | src/handle.c:718-720 | The drain of the closing report drains every ring of the measure once and leaves the read counters as they were. |
| Handlers.FinalizeMeasure | src/handle.c:703-727 | Closing a started measure drains its rings once; the drains of the report find nothing, and the counters end up cleared; the measure is then ended, which empties the list of all measures and takes every ring of this one away. |
| Registry.CapacityIsTight | src/handle.c:491-511 | After n registrations the capacity is 128 doubled some times, holds all entries and is below 2n when above 128. |
| Registry.MovesAreAmortised | src/handle.c:502-511 | All growth together moves fewer than 2n slots. |
| Registry.FirstIsFirst | src/handle.c:480-485 | The search result is the first registration with the thread id, or there is none. |
| Registry.LookupIsStable | src/handle.c:480-485 | Later registrations never change what a thread id resolves to. |
| Registry.ThreadTable.Register | src/handle.c:487-534 | The new entry holds the request's thread id, its two measures each in its place, its file and the next rank; the entries before it stay as they are, before and after growth; the new rank is the number of earlier registrations. |
| Registry.ThreadTable.EntriesHold | src/handle.c:512-517 | In every valid state entry i holds rank i and, field by field, what the i-th request asked for. |
| Registry.ThreadTable.EnsureRoom | src/handle.c:491-511 | The table has room for one more entry, its entries are unchanged, and its size is the capacity for the next count. |
| Registry.ThreadTable.GetThreadInfo | src/handle.c:480-485 | The loop returns the first entry with the thread id, which holds that request field by field, or none. |
| ThreadRanks.RanksAreDistinct | src/handle.c:444-534 | Under every interleaving of any number of creations no two threads have the same slot, the same profiling rank or the same table entry; the values taken stay below their counters, and table entries, profiling ranks, threads and creations are ordered, with one extra for the loading thread. |
| ThreadRanks.WritesStayInside | src/handle.c:447-465 | In every state of every interleaving nothing was or is about to be written past the slot array if and only if no more than 1024 creations were begun; with none under way, if and only if nothing was written there. |
| ThreadRanks.FirstWriteOutside | src/handle.c:464-465 | A step writes past the array for the first time only as a creation whose rank is at least 1024, whether the real creation succeeds or not. |
| ThreadRanks.ThreadPastTheEnd | src/handle.c:447-464 | An interleaving of 1025 creations puts a thread in slot 1024. |
| ThreadRanks.StatusOnlyAdvances | src/handle.c:417-442 | Along every interleaving that has written nothing past the array, a slot's status only moves from none to created to finalized, one stage at a time. |
| ThreadRanks.ThreadProgresses | src/handle.c:422-474 | Under every interleaving a thread that has not come to its end can take its next step, and takes from a counter the value it has. |
| ThreadRanks.OneLifetime | src/handle.c:417-442 | A created thread's slot says nothing while it starts up, then created, then finalized. |
| ThreadRanks.ApplyKeeps | src/handle.c:422-534 | Every atomic step keeps slots, profiling ranks and table entries distinct, statuses those of their threads, and the counters equal to the threads that have come so far. |
| KMeansModel.CostAroundMean | kmeans.c:128-146 | A cluster's squared distances to any point are those to its mean plus its size times the squared distance to the mean. |
| KMeansModel.MeanIsMinimiser | kmeans.c:128-146 | The mean is the one point minimising its cluster's squared distances. |
| KMeansModel.MeanStepDescends | kmeans.c:122-146 | Recomputing the means does not increase the total squared distance, also when clusters are empty. |
| KMeansModel.ClusterStepDescends | kmeans.c:71-97 | Reassigning the points does not increase it. |
| KMeansModel.IterationDescends | kmeans.c:44-45 | Means and then assignment, in one turn, do not increase it. |
| KMeansModel.RunDescends | kmeans.c:40-52 | Over any run of the two functions in any order, the total squared distance never increases. |
| KMeansModel.EverySearchFindsNearest | kmeans.c:77-93 | If points and starting means lie in the box, every search of every run assigns the lowest-indexed nearest centre; the sentinel never wins. |
| KMeansModel.CentroidsStayInBox | kmeans.c:134-145 | Means of points in the box are in the box. |
| KMeansModel.ClusteringIsUnique | kmeans.c:77-93 | What the assignment leaves is fully determined by points, means and old assignment. |
| KMeansModel.NearestIsOptimal | kmeans.c:100-119 | With the means fixed, the nearest assignment's error is no larger than that of any other assignment. |
| KMeansModel.ErrorIsEuclidean | kmeans.c:59-66 | The error is a sum of nonnegative numbers, one a point, each of whose squares is the sum of the squared coordinate differences to the assigned centre. |
| KMeansModel.AssigningIsOptimal | kmeans.c:71-97 | In every run in the box each turn that assigns the points leaves every point at its nearest centre and the error minimal for those centres. |
| KMeansModel.RoundsEnd | kmeans.c:40-52 | Any positive number of rounds does not increase the total squared distance and, in the box, ends at an assignment of least error for its centres. |
| KMeans.Workload.Cluster | kmeans.c:71-97 | Each point ends up with its lowest-indexed nearest centre, or keeps its assignment when all are out of reach. |
| KMeans.Workload.GetE | kmeans.c:100-119 | The result is the sum of the Euclidean distances of the points to their assigned centres. |
| KMeans.Workload.GetMean | kmeans.c:122-146 | Each centre becomes the mean of its cluster, or no point at all exactly if no point is assigned to it. |
| KMeans.Workload.Iterate | kmeans.c:40-52 | The main loop makes one to fifty rounds of assigning, moving the means and assigning again: every round but the last moved the error by more than 0.1, and with fewer than fifty the last did not; the total squared distance does not increase, and, started in the box, it ends at an assignment of least error for its centres. |

## Left out

- System and library calls (perf_event_open, mmap, ioctl, fcntl, timers, signals, dlsym): only a fresh descriptor or a failure, and the kernel's appends, remain of them. A failed mmap ends the process and is not part of any run.
- Records the kernel drops because the ring has no room, and wrap-around of the 64-bit head: a run contains the records that were written.
- Interleaving inside a start, stop or resume: each call is one step, as starts are serialised by the thread lock (`src/handle.c:573-598`) and the other two only touch the started mark.
- Enabling and disabling of events: stop and resume are modelled by the started mark.
- Payload bytes of a sample: the struct has a field the requested sample type does not ask for, so the decoding is the parameter `Codec`; the rebuilding of a record split by the end of a ring is its second component.
- SampleCollector.Collector.CountSample: the bytes of a record running past the end of the buffer are left to `Codec.rebuild`, because the source starts copying behind the header and so takes eight bytes from outside the buffer; the drain never gets there (`SampleCollector.CopiesNeverSplit`).
- SampleCollector.InPlaceMatchesCopy: for a record split by the end of a ring only the number of samples is compared, for the same reason.
- Sampling.Sampler.End: an unmapped address that is handed out again is not the old one; a dangling slot stays dangling, so a second end of the measure takes nothing away that was mapped since at the same address.
- Statistics.UpdateCounters: counts and sums are exact; the 64-bit ones of the source are these modulo 2^64 (`Counters64.CountersModuloWord`).
- SampleCollector.Collector.ProcessSamples: runs in one piece; what the kernel appends meanwhile is `SplitDrain`'s matter, over values. Concurrent drains of the shared queue are not modelled, since the queue is emptied outside its lock.
- Registry.ThreadTable.Register: allocation succeeds; the source doubles the capacity before it knows that the reallocation worked.
- ThreadRanks.StatusOnlyAdvances: promises nothing once something has been written past the slot array, since the source's next variables may lie there.
- ThreadRanks.RanksAreDistinct: the same writes are taken to leave the counters and the threads' own ranks alone.
- Sharing of the global current rank after the registration lock is released, so no claim on which thread's measure `sampling_thread_init` goes on to set up.
- Which threads `finalize` visits: its loop stops before the last registered rank. The model closes one given measure.
- `sig_handler` and the collect and resume functions it calls: the stop is guarded by the measure being stopped.
- Floating-point rounding in the workload: distances and means are reals.
- Printing and output files, except that a registration records whether its file could be opened.
- Counting measures, architecture tables, CPU-information parsing, error strings, the launcher and the affinity override: table lookup and calls.
