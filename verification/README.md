# CXLMemSim models

Dafny models of the stateful machines at the heart of OCEAN / CXLMemSim, a simulator of shared CXL memory, with
proofs about all their runs. `dafny verify dfyconfig.toml` checks the project.

Each machine has three parts: a state and a step function, a class or methods that perform the steps in place as the
program does, and lemmas that say what every run leads to, in terms of the history of operations alone.

| file | machine |
|---|---|
| `RingQueue.dfy` | the lock-free message rings between nodes, step by step under every interleaving |
| `CoherencyEngine.dfy` | the unified MOESI directory |
| `MemoryServer.dfy`, `ServerHistory.dfy`, `ServerAddresses.dfy` | the thread-per-connection server: MESI table, bytes, pending back-invalidations, addresses |
| `MhsldDevice.dfy` | the multi-headed device: heads, directory, pool |
| `ExpanderCredits.dfy`, `ExpanderHistory.dfy` | the memory expander's request queue, credits and address cache |
| `AddressIndex.dfy` | the memory expander's index of held addresses |
| `HdmDecoder.dfy` | the address decoder |
| `Interleave.dfy`, `Rounding.dfy` | the weighted interleaving policy and the rounding of its weights |
| `RobWindow.dfy` | the reorder-buffer window |
| `RecencyStack.dfy`, `LruCache.dfy`, `HugePages.dfy` | recency order, the LRU cache and the TLBs |
| `ChasingIndex.dfy` | the pointer-chasing index |
| `Common.dfy` | options, 64-bit sums, line addresses, states, sorting, division |

Findings, each stated as a lemma with the exact condition beside it:

- The message rings tolerate one producer and one consumer (`RingQueue.CallersTolerated`); the program starts two
  consumers (src/distributed_server.cpp:445).
- A read can return overwritten bytes if request times decrease on a line
  (`ServerHistory.NothingAppliedIffCalm`, `ServerHistory.BackwardsTimesReadStale`).
- Atomics bypass the address translation that reads and writes use: they meet only in a region based at 0, below its
  size (`ServerHistory.AtomicsMeetReads`, `ServerHistory.BasedAtomicsMiss`, `ServerHistory.ReadsWrapAtomicsDoNot`).
- A pending entry is copied to the start of its line whatever offset it was written at
  (`ServerHistory.LateEntryMoves`).
- Releasing a region that ends in the last line of the address space never returns (`Mhsld.ReleaseWalk`).
- A request issued to an address already in flight loses the earlier request's credit for good, and two losses of a
  kind block the queue (`Expander.BlockedIff`): on a write by insertions alone (`Expander.WritesGetBlocked`), on a read
  only where an address is freed while it is read (`Expander.ReadsNeverBlocked`, `Expander.ReadsGetBlocked`).
- `update_address_cache` marks the index valid without building the ranges, so every query the program makes answers
  "not local" (`AddressIndex.GuardedNeverLocal`).
- The reorder-buffer ring is shared by all threads but its counters are not (`RobWindow.SafeIffOneThread`).
- The interleave retry never returns when all expanders of positive weight are full
  (`InterleavePolicy.RetryEndsIff`), and more than ten equal expanders are never chosen
  (`InterleavePolicy.EqualExpanders`). Where their number divides ten, rounding can cost each a position
  (`InterleavePolicy.TenMayWeighNothing`): in double precision ten expanders of latency 3 weigh nothing
  (`InterleavePolicy.TenThirdsWeighNothing`).
- An allocation that passes 2^64 together with what is in use can be granted (`Mhsld.OverGrantIff`,
  `Mhsld.OverGrantReached`).
- The engine's dirty mark outlives an invalidation, so a line can be Shared and dirty (`Coherency.DirtyIff`,
  `Coherency.SharedYetDirty`).
- Readers left behind by a writeback are told nothing when the line is written next (`Coherency.CopiesLeftBehind`).
- The binary search agrees with the scan, however often ranges are added, exactly if no range starts inside a different
  one; empty ranges, wrapping ranges and shorter copies of a range count (`HdmDecoder.AlwaysAgreesIff`).
- Sorting the ranges can turn the remote flag of an interleaved address (`HdmDecoder.SortKeepsAllIff`,
  `HdmDecoder.SortChangesRemote`).
- `sort_ranges` is private and has no caller, so the program always scans; the binary search is modelled as written.

Where the comments and the code differ the models follow the code: the multi-headed directory and the MOESI engine
never enter Exclusive, and the comment "8 bits" beside the instruction mask of include/lbr.h:18-19 stands at a 28-bit
mask.

Clocks, random numbers, latencies, capacities and the order in which clients arrive are parameters or part of the run.

## Model

| member | source | states |
|---|---|---|
| RingQueue.FifoOrder | src/distributed_server.cpp:212-267 | in a legal history of a bounded FIFO the delivered messages are, in order, a prefix of the accepted ones, and the rest is the content |
| RingQueue.ReachableInv | src/distributed_server.cpp:212-267 | with at most one producer and one consumer, every interleaving of atomic steps keeps the log a FIFO history whose content is the unread slots |
| RingQueue.SingleProducerSingleConsumer | src/distributed_server.cpp:212-267 | every interleaving: delivered messages followed by the unread slots are, in order, the arguments of the calls that were not rejected, and at most capacity-1 messages wait |
| RingQueue.AcceptedAreOffered | src/distributed_server.cpp:212-240 | one producer, any consumers, every interleaving: the accepted messages are in order the arguments of the calls, read off the run, less the rejected ones and the one under way |
| RingQueue.AcceptedAreArguments | src/distributed_server.cpp:212-240 | any callers, every interleaving: what is accepted is, call by call, the argument of the caller that publishes |
| RingQueue.AcceptedCall | src/distributed_server.cpp:212-240 | an undisturbed call with room, from start to end: the argument lies in the slot at the head, the head is one further, both counters one higher, nothing else changes |
| RingQueue.RejectedCall | src/distributed_server.cpp:217-225 | an undisturbed call on a full ring counts one drop and changes nothing else |
| RingQueue.DeliveredCall | src/distributed_server.cpp:242-267 | an undisturbed dequeue delivers the oldest unread message, moves the tail one further and counts it |
| RingQueue.EmptyCall | src/distributed_server.cpp:242-249 | a dequeue of an empty ring changes nothing |
| RingQueue.NoOverwrite | src/distributed_server.cpp:228-236 | in every reachable state the slot a producer is about to fill is not an unread one |
| RingQueue.ResponsesMatchLog | src/distributed_server.cpp:217-256 | each call reports empty or full exactly when its deciding load saw the ring empty or holding capacity-1 messages |
| RingQueue.QuiescentStats | src/distributed_server.cpp:222-264 | when neither side is inside a call, sent minus received is the occupancy and every counter equals its count over the history |
| RingQueue.TwoProducersLoseMessage | src/distributed_server.cpp:212-240 | with two producers there is an interleaving after which two messages are accepted, none delivered, and only the second can still be read |
| RingQueue.TwoConsumersDeliverTwice | src/distributed_server.cpp:439-448 | with two consumers, as the two workers are, there is an interleaving that accepts one message and delivers it twice |
| RingQueue.ConsumersAlone | src/distributed_server.cpp:242-267 | with nobody producing, any number of consumers leaves every history legal |
| RingQueue.CallersTolerated | src/distributed_server.cpp:212-267 | for capacity 2 or more, all interleavings are FIFO histories if and only if nobody produces, or one producer meets at most one consumer |
| RingQueue.CountWrapsInFlight | src/distributed_server.cpp:235-263 | the 32-bit message count can read 2^32-1 while calls are under way |
| Coherency.DirectoryIsHistory | src/coherency_engine.cpp:94-305 | after every run of reads, writes and atomics each entry is a function of the accesses to its line: last writer as owner, exactly the other readers since as sharers, Modified or Owned accordingly, version the number of writes modulo 2^32; no other line has an entry |
| Coherency.RepliesFollowHistory | src/coherency_engine.cpp:94-305 | after every run, remote messages included, the data source, reported state and traffic of the next access follow from the operations on its line: the last writer is the source unless it or a holder asks |
| Coherency.LocalRepliesFollowHistory | src/coherency_engine.cpp:94-305 | the same from the bare list of reads and writes of the line, where no remote message came |
| Coherency.TotalsAreHistory | src/coherency_engine.cpp:94-464 | after every run all six statistics are the sums of what each operation, remote messages included, costs by the history of its line |
| Coherency.CopiesLeftBehind | src/coherency_engine.cpp:445-464 | a write, a read by another node and the writer's writeback: the next write invalidates nobody although the reader is still listed |
| Coherency.TenureIsHistory | src/coherency_engine.cpp:94-464 | after every run, remote messages included, a line has an entry exactly if it was accessed, the whole entry (state, owner, head, sharers, version, time, dirty mark) follows from the operations on it, and it is coherent |
| Coherency.DirtyIff | src/coherency_engine.cpp:94-464 | after every run a line is marked dirty exactly if some write to it was never written back by the owner of that time |
| Coherency.SharedYetDirty | src/coherency_engine.cpp:396-421 | a local write, an invalidation and a read leave the line Shared and marked dirty |
| Coherency.AccessKeeps | src/coherency_engine.cpp:94-292 | a read makes the holders the old ones plus the reader, a write makes them the writer alone, and both keep an entry coherent |
| Coherency.RemoteKeeps | src/coherency_engine.cpp:396-464 | remote invalidate, downgrade and writeback keep an entry coherent and remove exactly the named holder |
| Coherency.SingleWriter | src/coherency_engine.cpp:94-464 | through every run, remote messages included: Modified has no sharers and a real owner, an Owned line's owner is no sharer, both are dirty, Invalid has no owner, Exclusive is never reached |
| Coherency.AccessPays | src/coherency_engine.cpp:123-180 | an access adds at most one sharer and pays its invalidations with the sharers it removes |
| Coherency.TrafficBound | src/coherency_engine.cpp:94-464 | amortised over every run and all lines: invalidations plus sharers are at most reads plus remote invalidates, messages plus sharers at most twice the reads plus the writes |
| Coherency.CoherencyEngine.GetOrCreateEntry | src/coherency_engine.cpp:32-50 | returns the entry of the line, creating a fresh one only if there is none |
| Coherency.CoherencyEngine.InvalidateSharers | src/coherency_engine.cpp:311-336 | sends one invalidation to each sharer but one and clears the set |
| Coherency.CoherencyEngine.DowngradeOwner | src/coherency_engine.cpp:338-356 | with another owner: one message and one downgrade, Modified becomes Owned and dirty, an Exclusive owner becomes a sharer, other states stay; without one, nothing |
| Coherency.CoherencyEngine.ProcessRead | src/coherency_engine.cpp:94-192 | performs the read step on the directory and the counters in place |
| Coherency.CoherencyEngine.ProcessWrite | src/coherency_engine.cpp:197-292 | performs the write step on the directory and the counters in place |
| Coherency.CoherencyEngine.ProcessAtomic | src/coherency_engine.cpp:294-305 | an atomic is a write of the line |
| Coherency.CoherencyEngine.HandleRemoteInvalidate | src/coherency_engine.cpp:396-421 | performs the remote invalidation in place |
| Coherency.CoherencyEngine.HandleRemoteDowngrade | src/coherency_engine.cpp:423-443 | performs the remote downgrade in place |
| Coherency.CoherencyEngine.HandleRemoteWriteback | src/coherency_engine.cpp:445-464 | performs the remote writeback in place |
| ServerHistory.MesiIsHistory | src/main_server.cc:708-790 | after every run each line's record follows from the requests that touched it: Modified by the last writer until a read, then Shared by it and all readers since; -1 never becomes a sharer |
| ServerHistory.CopySpreads | src/shared_memory_manager.cc:286-412 | an accepted copy puts no two of its bytes in one place, also where it wraps round the region |
| ServerHistory.ReadBack | src/main_server.cc:1034-1080 | the bytes a write reads back for the back-invalidation are the bytes it wrote |
| ServerHistory.QueueIsHistory | src/main_server.cc:1382-1444 | after every run the pending queue of a line holds one entry per copy taken away by the writes since its last read, and the access time is that of the last completed request |
| ServerHistory.NothingAppliedIffCalm | src/main_server.cc:1398-1444 | no back-invalidation is copied over memory if and only if at each read every waiting entry is no newer than the last completed request on the line |
| ServerHistory.MonotoneIsCalm | src/main_server.cc:1398-1444 | times that never decrease on a line suffice for that |
| ServerHistory.CalmMemory | src/main_server.cc:926-1251 | a run without copied entries leaves in memory exactly what its writes and atomics stored, last store winning |
| ServerHistory.CalmReadReply | src/main_server.cc:926-1003 | every read of such a run returns byte by byte what was last stored |
| ServerHistory.ReadsReturnLastStore | src/main_server.cc:926-1251 | with times that never decrease on a line, every read returns exactly the bytes last put there by a write, fetch-and-add or successful compare-and-swap, and fails exactly if the address or the copy is refused |
| ServerHistory.MemoryIsHistory | src/main_server.cc:926-1444 | memory after every run: the stores and the entries copied back by reads, in order, last one winning |
| ServerHistory.RepliesAreHistory | src/main_server.cc:926-1444 | the reply to a read after every run, byte by byte the last of those changes, or the failure |
| ServerHistory.AtomicReplies | src/main_server.cc:1177-1215 | after every run a fetch-and-add or compare-and-swap is answered with the word last left at its address, whether it stores or not |
| ServerHistory.CountersAreHistory | src/main_server.cc:708-790 | after every run invalidations, downgrades and applied entries count the copies taken by writes, the writers met by reads and the newer entries drained |
| ServerHistory.VersionIsHistory | src/main_server.cc:1171-1215 | after every run a line's version is the number of atomics that stored to it, modulo 2^64, and a line has a record exactly if a request reached it |
| ServerAddresses.LocIsPlace | src/shared_memory_manager.cc:286-412 | every address of the region is copied to its distance from the base, rounded down to lines, or modulo the size where the base is 0 |
| ServerAddresses.OnePlaceIff | include/shared_memory_manager.h:129-139 | two addresses share a place exactly if they are equal, or where the base is 0, equal modulo the region's size; with an aligned base the place is the distance |
| ServerAddresses.ServesIff | src/shared_memory_manager.cc:286-352 | a request is served exactly if its address is valid and its clamped copy ends inside the region |
| ServerAddresses.CopiesIff | src/shared_memory_manager.cc:341-412 | a write stores at an address exactly if it is one of its own, or where the base is 0, lies where one of its own does |
| ServerAddresses.EncodeByte | src/main_server.cc:1171-1215 | byte k of a stored word is its k-th base-256 digit |
| ServerAddresses.DecodeIsWord | src/main_server.cc:1171-1215 | eight bytes are read as the word with those digits |
| ServerAddresses.MemoryByBytes | src/main_server.cc:926-1444 | after every run each byte is the one left there by the last write, stored word or copied entry that reaches it |
| ServerAddresses.AnswersAreHistory | src/main_server.cc:843-1251 | the answer to every request after every run: bytes found at the addresses or failure for a read, stored or failed for a write, the old word for an atomic, 0 for a fence |
| ServerAddresses.ReadsReturnStored | src/main_server.cc:926-1003 | with times that never decrease on a line, a read returns at each of its addresses the byte last stored at that address, and fails exactly if not served |
| ServerAddresses.LastWriteStays | src/main_server.cc:1004-1095 | the byte last stored at a place is that of the last write that reaches it, if no later request does |
| ServerAddresses.UnstoredStays | src/main_server.cc:926-1251 | a place no request stores at keeps its initial byte |
| ServerAddresses.WrittenIsRead | src/main_server.cc:926-1095 | with such times, a byte written and not stored over since is the byte read, at any address of any region |
| ServerHistory.BackwardsTimesReadStale | src/main_server.cc:1398-1444 | a family of runs with decreasing times in which a read returns overwritten bytes |
| ServerHistory.LateEntryMoves | src/main_server.cc:1398-1444 | an entry is copied to the start of its line whatever its offset: a read of the start returns bytes nobody stored there |
| ServerHistory.AtomicsMeetReads | src/main_server.cc:1171-1174 | for every address: an atomic's word lies inside the data and is found there by reads exactly when the region is based at 0 and the word ends below its size |
| ServerHistory.BasedAtomicsMiss | src/main_server.cc:1171-1174 | in a region based elsewhere no valid address meets its atomic |
| ServerHistory.ReadsWrapAtomicsDoNot | src/main_server.cc:1171-1174 | based at 0, a read at or past the region's size is accepted and wraps into it, while the atomic's place is past the end of the data |
| ServerHistory.DecodeEncode | src/main_server.cc:1171-1215 | little-endian encoding and decoding of a word are inverse |
| ServerHistory.WordRoundTrip | src/main_server.cc:1171-1215 | a stored word is read back |
| ServerHistory.FetchAndAddSums | src/main_server.cc:1177-1190 | a case of AdditionsSurvive: runs of additions to one word, reads and fences, in any order and however stamped |
| ServerHistory.AdditionsSurvive | src/main_server.cc:1177-1190 | every run in which nothing else, entries copied back included, changes the word: it holds the sum of the additions modulo 2^64 |
| MemoryServer.ThreadPerConnectionServer.ReadCacheline | src/shared_memory_manager.cc:286-339 | refuses or copies out the bytes at the translated places |
| MemoryServer.ThreadPerConnectionServer.WriteCacheline | src/shared_memory_manager.cc:341-412 | refuses or stores the bytes at the translated places |
| MemoryServer.ThreadPerConnectionServer.CheckAndApplyBackInvalidations | src/main_server.cc:1398-1444 | empties the line's queue, copying back exactly the entries newer than the given access time |
| MemoryServer.ThreadPerConnectionServer.ApplyEntry | src/main_server.cc:1410-1432 | copies one entry to the line's start exactly if it is newer than the given access time and fits |
| MemoryServer.ThreadPerConnectionServer.RegisterBackInvalidation | src/main_server.cc:1382-1396 | appends one entry to the line's queue |
| MemoryServer.ThreadPerConnectionServer.RegisterAll | src/main_server.cc:1068-1080 | appends one entry per thread that lost its copy, in place |
| MemoryServer.ThreadPerConnectionServer.CountInvalidations | src/main_server.cc:772-783 | counts the other sharers and another owner |
| MemoryServer.ThreadPerConnectionServer.HandleReadCoherency | src/main_server.cc:708-729 | moves a record as a read does and counts a downgrade exactly if another thread owned the line |
| MemoryServer.ThreadPerConnectionServer.HandleWriteCoherency | src/main_server.cc:731-770 | moves a record as a write does and counts the copies invalidated |
| MemoryServer.ThreadPerConnectionServer.GetCachelineMetadata | src/shared_memory_manager.cc:414-428 | returns the record of the line, creating an untouched one only if there is none |
| MemoryServer.ThreadPerConnectionServer.HandleRead | src/main_server.cc:926-1003 | performs the read request in place, failures included |
| MemoryServer.ThreadPerConnectionServer.StoreAndRegister | src/main_server.cc:1034-1080 | stores, then queues one copy of the stored bytes per thread that lost the line, or does neither |
| MemoryServer.ThreadPerConnectionServer.HandleWrite | src/main_server.cc:1004-1095 | performs the write request in place, failures included |
| MemoryServer.ThreadPerConnectionServer.StoreWord | src/main_server.cc:1171-1215 | stores a word as eight little-endian bytes |
| MemoryServer.ThreadPerConnectionServer.HandleAtomicRequest | src/main_server.cc:1132-1251 | performs fetch-and-add and compare-and-swap in place; the line is taken only if the word was stored |
| MemoryServer.ThreadPerConnectionServer.HandleRequest | src/main_server.cc:843-1096 | performs any request in place and gives its reply |
| Mhsld.EveryNameIsActive | src/cxlendpoint.cpp:669-1095 | through every run of all operations each owner and sharer in the directory is an active head below sixteen, a Modified line has no sharers, no line is Exclusive |
| Mhsld.NobodyIsFiltered | src/cxlendpoint.cpp:1004-1038 | so the active filter of an invalidation never drops a sharer |
| Mhsld.InactiveHeadsAreAbsent | src/cxlendpoint.cpp:680-701 | a head that is not active appears nowhere in the directory |
| Mhsld.ActiveIsHistory | src/cxlendpoint.cpp:669-700 | after every run a head is active exactly if its last activation was not followed by a deactivation |
| Mhsld.LineIsHistory | src/cxlendpoint.cpp:669-1095 | after every run of all operations a line has a record exactly if an active head accessed it, and the whole record (owner, state, sharers, version, access count, time, dirty mark) follows from the operations so far |
| Mhsld.HeadsAreHistory | src/cxlendpoint.cpp:669-1095 | after every run each head's grant, use, counts and back-invalidations, and all four totals, follow from the operations: one for each copy a write or invalidation takes from another head, one for each write on a line another head wrote; use adds the allocations that fit and subtracts the releases |
| Mhsld.WriteTells | src/cxlendpoint.cpp:902-982 | a write tells each other holder of the line, and the last writer if another, and adds just that to the totals |
| Mhsld.BackInvalidationsAccounted | src/cxlendpoint.cpp:813-1067 | over every run the back-invalidations of all heads are the invalidations and the snoops, and the messages are these, the read misses on owned lines and the downgrades |
| Mhsld.OverGrantIff | src/cxlendpoint.cpp:728-742 | more than fits is granted exactly where use and size pass 2^64 together and the remainder fits |
| Mhsld.OverGrantReached | src/cxlendpoint.cpp:669-742 | an activation and two allocations whose sizes pass 2^64 together: the second is granted beyond the grant |
| Mhsld.UseWithinGrant | src/cxlendpoint.cpp:669-767 | through every run no head's recorded use exceeds its grant |
| Mhsld.ReleaseWalk | src/cxlendpoint.cpp:744-767 | the walk of a release ends if and only if the region's end, modulo 2^64, is not in the last line of the address space |
| Mhsld.RegionLines | src/cxlendpoint.cpp:744-767 | a release gives up exactly the lines of the bytes from the start of the first line to the region's end |
| Mhsld.RegionWraps | src/cxlendpoint.cpp:744-767 | a region that passes 2^64 gives up only the lines up to its wrapped end |
| Mhsld.MhsldDevice.ActivateHead | src/cxlendpoint.cpp:669-678 | activates a head in place and reports an index out of range |
| Mhsld.MhsldDevice.DeactivateHead | src/cxlendpoint.cpp:680-701 | deactivates a head and erases it from every line |
| Mhsld.MhsldDevice.AllocatePool | src/cxlendpoint.cpp:728-742 | grants and returns the place if use plus size, in 64-bit arithmetic, is within the grant, and otherwise returns 0 and changes nothing |
| Mhsld.MhsldDevice.ReleasePool | src/cxlendpoint.cpp:744-767 | returns the share and erases the head from the lines of the region, where the walk ends |
| Mhsld.MhsldDevice.ReadWithCoherency | src/cxlendpoint.cpp:813-890 | performs the read step in place, indexing the head table in range |
| Mhsld.MhsldDevice.WriteWithCoherency | src/cxlendpoint.cpp:902-982 | performs the write step in place, indexing the head table in range |
| Mhsld.MhsldDevice.AtomicWithCoherency | src/cxlendpoint.cpp:988-998 | an atomic is a write of the line |
| Mhsld.MhsldDevice.InvalidateSharers | src/cxlendpoint.cpp:1004-1038 | tells every active sharer but one and clears the set |
| Mhsld.MhsldDevice.DowngradeOwner | src/cxlendpoint.cpp:1044-1067 | downgrades another head's line with one message |
| Mhsld.MhsldDevice.WritebackLineOf | src/cxlendpoint.cpp:1072-1095 | cleans and releases the line exactly if the head owns it |
| RecencyStack.ReuseDistance | include/cxlcontroller.h:131-172 | a key is among the first c of the recency order exactly if it was used and fewer than c other keys were used since |
| RecencyStack.HitsGrow | include/cxlcontroller.h:131-172 | a longer prefix of the recency order is an extension of a shorter one and never hits less |
| Lru.StepIsTouch | include/cxlcontroller.h:131-172 | a put, and a get that hits, leave the first capacity keys of the order with the key moved to the front |
| Lru.OrderIsRecency | include/cxlcontroller.h:131-172 | after every run the resident keys, in list order, are the most recently touched distinct keys, as many as fit |
| Lru.ValuesAreLastPut | include/cxlcontroller.h:131-172 | each resident key has the value last put under it |
| Lru.HitsByReuseDistance | include/cxlcontroller.h:131-153 | a get hits exactly if its key was touched before and fewer than capacity other keys since |
| Lru.HitsAreRecency | include/cxlcontroller.h:131-172 | with a put on each miss, the number of hits is a function of the trace and the capacity |
| Lru.LargerCacheContains | include/cxlcontroller.h:131-172 | with a put on each miss a smaller cache is a prefix of a larger one, and hits never fall as capacity grows |
| Lru.LruCache.Get | include/cxlcontroller.h:131-153 | returns the value of a resident key and makes it most recent; a miss changes nothing |
| Lru.LruCache.Put | include/cxlcontroller.h:155-172 | stores under the key, evicting the least recent key exactly if the cache is full and the key is new |
| Lru.LruCache.Remove | include/cxlcontroller.h:191-204 | removes the key and nothing else, and reports whether it was there |
| HugePages.EntriesAreRecency | include/policy.h:103-141 | after every run of walks each TLB holds the most recently walked distinct pages of its size, as many as fit |
| HugePages.HitIff | include/policy.h:156-246 | a walk hits exactly if its page was walked before and fewer than capacity other pages of that size since |
| HugePages.StatsAreHistory | include/policy.h:156-246 | hits and misses of a size add up to its walks, and the hits are those of the reuse-distance rule |
| HugePages.PagesAreTranslated | include/policy.h:156-246 | every page in a TLB is the page of an address already translated |
| HugePages.PageIs | include/policy.h:166-195 | the page is the multiple of 4 KiB, 2 MiB or 1 GiB at or below the address |
| HugePages.OnePageIff | include/policy.h:166-195 | two addresses have one page exactly if they lie in one |
| HugePages.HitAlike | include/policy.h:156-246 | after every run two addresses of one page hit alike |
| HugePages.TranslationIsHistory | include/policy.h:156-246 | after every run an address is translated exactly if a walk of it missed, and as the first such walk gave it |
| HugePages.KindIsHistory | include/policy.h:156-246 | a walk is a hit by the reuse-distance rule, else a refill if an earlier walk of the address missed, else a full walk |
| HugePages.WalksAreCounted | include/policy.h:156-246 | full walks are counted once per translated address |
| HugePages.TlbCache.Lookup | include/policy.h:110-120 | finds a page exactly if present and makes it most recent |
| HugePages.TlbCache.Insert | include/policy.h:122-140 | puts the page first, dropping the least recent exactly if full |
| HugePages.HugePagePolicy.CheckPageTableWalk | include/policy.h:156-246 | performs a walk in place and says which of the three latencies applies |
| RobWindow.FittingIsLongest | src/cxlcontroller.cpp:215-229 | the window is a suffix of at most 512 instructions and every longer suffix has more |
| RobWindow.FittingExtends | src/cxlcontroller.cpp:215-229 | evicting after each record leaves the same window as evicting once from the whole history |
| RobWindow.EvictAgrees | src/cxlcontroller.cpp:215-229 | with counters that are sums over the ring the eviction never pops an empty queue, ends at the longest fitting suffix and conserves misses |
| RobWindow.FlagFields | include/lbr.h:15-20 | the miss count is the low two bits of the flags, the instruction count the 28 bits from bit 16 |
| RobWindow.EvictIff | src/cxlcontroller.cpp:215-229 | whatever the counters, the eviction pops no empty queue exactly if some number of records from the front brings the count to 512 and their misses are all in the queue |
| RobWindow.EvictIs | src/cxlcontroller.cpp:215-229 | it then removes the fewest records from the front that bring the count to 512, and exactly their instructions, misses, types and counts |
| RobWindow.InsertIs | src/cxlcontroller.cpp:195-230 | an insertion adds the record, its fields and one type for each miss, then evicts so |
| RobWindow.QueuedAre | src/cxlcontroller.cpp:203-211 | after every run the queued types are the last ones pushed, less those given out |
| RobWindow.TypesInOrder | src/cxlcontroller.cpp:203-211 | in every run the misses get, in order, the types pushed and not yet given, and 0 where none is left |
| RobWindow.StepTouches | src/cxlcontroller.cpp:195-278 | an event changes its own thread only, and a miss type leaves the ring alone |
| RobWindow.OneThreadWindow | src/cxlcontroller.cpp:195-230 | after every run of one thread: the ring is the longest suffix of all its records with at most 512 instructions, every counter is the sum over it, the type queue is the end of all types assigned, evicted plus present misses are all misses seen |
| RobWindow.TwoThreadsPopEmpty | src/cxlcontroller.cpp:195-230 | two threads sharing the ring: a long record of one evicts a record of the other and pops an empty type queue |
| RobWindow.SafeIffOneThread | src/cxlcontroller.cpp:195-230 | no run of a set of threads pops an empty queue if and only if there is at most one thread |
| RobWindow.RobCounters.PushType | src/cxlcontroller.cpp:250-278 | queues a miss type; counters that are the sums over the ring stay so |
| RobWindow.RobCounters.AdmitTypes | src/cxlcontroller.cpp:203-211 | gives each miss the next queued type, or 0, and counts it |
| RobWindow.RobCounters.ExpelTypes | src/cxlcontroller.cpp:224-227 | drops the oldest types and their counts |
| RobWindow.RobCounters.InsertOne | src/cxlcontroller.cpp:195-230 | performs the insertion and the evictions in place wherever no empty queue is popped; counters that are the sums over the ring stay so, and the ring is then the longest suffix that fits |
| ChasingIndex.VisitIffCovers | microbench/uarch.h:707-716 | the draws reach all slots exactly if every slot other than those visited is some draw modulo the size |
| ChasingIndex.LinkedPathIsCycle | microbench/uarch.h:699-719 | a linked path over all slots is a single cycle: following it visits each slot once and returns to slot 0 |
| ChasingIndex.TakenIffOnPath | microbench/uarch.h:712-712 | the inner loop's test refuses exactly the slots already on the path |
| ChasingIndex.FreeSlotExists | microbench/uarch.h:708-712 | at each outer step some slot passes the test |
| ChasingIndex.NextFree | microbench/uarch.h:708-712 | the inner loop stops at the first draw whose slot is free, and fails exactly if no draw is |
| ChasingIndex.InitChasingIndex | microbench/uarch.h:699-719 | fails exactly if the draws miss a slot; otherwise the index is one cycle through all slots, in the order the draws first reach them |
| HdmDecoder.SpreadGather | src/hdm_decoder.cpp:90-124 | gathering an offset of a target lands in the region and decodes to that target and offset |
| HdmDecoder.GatherSpread | src/hdm_decoder.cpp:90-124 | decoding an address of the region gives an offset inside the target, and gathering gives the address back |
| HdmDecoder.SpreadInjective | src/hdm_decoder.cpp:90-124 | no two addresses of the region share a target and an offset |
| HdmDecoder.SpreadIs | src/hdm_decoder.cpp:90-124 | byte r of block i in round q of the region goes to byte r of block q of target i; an address outside, or without targets, is not found |
| HdmDecoder.RemoteIsFirst | src/hdm_decoder.cpp:113-120 | a target's flag is that of the first range naming it, and local without one |
| HdmDecoder.ScanIsFirst | src/hdm_decoder.cpp:60-68 | over any ranges the scan answers with the first the address lies in: its target, the distance from its base, its flag and hops; otherwise not found |
| HdmDecoder.SearchIsSound | src/hdm_decoder.cpp:71-87 | over any ranges the binary search answers with a range the address lies in, or not found |
| HdmDecoder.ModesDecide | src/hdm_decoder.cpp:35-51 | what each mode answers over any unsorted ranges: the first range, the interleaving, or the latter where the former names no target |
| HdmDecoder.ScanFinds | src/hdm_decoder.cpp:60-68 | where no range starts inside another the scan finds the one that covers the address, wherever it stands |
| HdmDecoder.SearchFinds | src/hdm_decoder.cpp:71-87 | over such ranges in sorted order the binary search finds a covering range exactly if there is one |
| HdmDecoder.SearchIsScan | src/hdm_decoder.cpp:27-88 | over such ranges, for every address, the binary search over any sorted permutation equals the scan of the original order |
| HdmDecoder.AlwaysAgreesIff | src/hdm_decoder.cpp:12-88 | for all ranges that fit the fields and name a target: search and scan agree for every address, however often and in whatever order the ranges are added and ties are sorted, exactly if no range starts inside a different one |
| HdmDecoder.SearchAgreesIff | src/hdm_decoder.cpp:12-88 | the same with every range added as often as given, where none is empty and no two different ones share start, target and flag |
| HdmDecoder.TwinsAloneAgree | src/hdm_decoder.cpp:53-88 | two ranges of one start, target and flag, alone, are searched as they are scanned |
| HdmDecoder.ShortTwinsHide | src/hdm_decoder.cpp:53-88 | two copies of the shorter hide the longer from the search |
| HdmDecoder.OverlapDisagrees | src/hdm_decoder.cpp:53-88 | where ranges of different targets overlap, sorting changes the answer |
| HdmDecoder.EmptyRangeHides | src/hdm_decoder.cpp:71-87 | empty ranges inside another hide it from the binary search |
| HdmDecoder.HybridDecides | src/hdm_decoder.cpp:35-51 | in hybrid mode a covering range decides, and interleaving decides exactly the addresses no range covers |
| HdmDecoder.FlagDoesNotMatter | src/hdm_decoder.cpp:35-88 | over ranges that stand in order, marking them sorted changes nothing that is decoded |
| HdmDecoder.SortKeepsPlace | src/hdm_decoder.cpp:27-124 | sorting keeps the target and the offset of every address in every mode |
| HdmDecoder.SortKeepsDecodedIff | src/hdm_decoder.cpp:27-124 | sorting keeps all that an address decodes to exactly if a range decides it or the target's first range has the same remote flag |
| HdmDecoder.SortKeepsAllIff | src/hdm_decoder.cpp:27-124 | sorting keeps every address exactly if it keeps the flag of each target that interleaving serves |
| HdmDecoder.OneFlagKeepsAll | src/hdm_decoder.cpp:113-120 | with one remote flag for each target sorting changes nothing |
| HdmDecoder.SortChangesRemote | src/hdm_decoder.cpp:113-120 | a target with a remote and a local range, added against the order of their bases: sorting turns its flag |
| HdmDecoder.Decoder.AddRange | src/hdm_decoder.cpp:13-16 | appends the range and marks the ranges unsorted |
| HdmDecoder.Decoder.ConfigureInterleave | src/hdm_decoder.cpp:18-25 | replaces the interleave configuration |
| HdmDecoder.Decoder.SortRanges | src/hdm_decoder.cpp:27-33 | leaves a sorted permutation in which every address is searched as it was scanned before and decodes to the same place |
| HdmDecoder.Decoder.DecodeRange | src/hdm_decoder.cpp:53-88 | binary search or scan, as the flag says; always a range the address lies in, with its target, offset, flag and hops, or not found; over disjoint ranges always the scan's answer |
| HdmDecoder.Decoder.DecodeInterleaved | src/hdm_decoder.cpp:90-124 | computes the interleaved place, with the remote flag of the first range of that target |
| HdmDecoder.Decoder.DecodeAddress | src/hdm_decoder.cpp:35-51 | decodes by mode; over proper disjoint ranges as if they were scanned, marked sorted or not |
| InterleavePolicy.OneRound | src/policy.cpp:52-57 | one round of consecutive choices is the weighted cycle, turned |
| InterleavePolicy.FairRound | src/policy.cpp:52-66 | with none full, any round of consecutive choices takes each expander exactly as often as its weight |
| InterleavePolicy.AllRoomIsNext | src/policy.cpp:48-66 | with none full, a call takes the next position of the cycle |
| InterleavePolicy.RetryEndsIff | src/policy.cpp:48-65 | the retry ends, within one cycle, if and only if some expander of positive weight has room |
| InterleavePolicy.PickIndex | src/policy.cpp:54-56 | the scan of prefix sums stays inside the weights and finds the expander of the position |
| InterleavePolicy.NextWithRoom | src/policy.cpp:48-66 | returns the first expander after the last position that has room |
| InterleavePolicy.Policy.ComputeOnce | src/policy.cpp:18-68 | local memory while it has room or no weight is positive, else the first expander with room, and moves the position there |
| InterleavePolicy.CycleAtMostTen | src/policy.cpp:37-46 | however the operations round, the weights add up to at most ten |
| InterleavePolicy.EqualExpanders | src/policy.cpp:37-51 | however the operations round, each of n equal expanders weighs 10/n rounded down, or one less exactly where n divides ten and its share was rounded below the quotient; 0 for n above ten |
| InterleavePolicy.TenMayWeighNothing | src/policy.cpp:37-51 | a sum that rounds up is enough for ten equal expanders to weigh nothing |
| InterleavePolicy.TenThirdsWeighNothing | src/policy.cpp:37-51 | ten expanders of write latency 3, every intermediate number the nearest double: each share ends below one |
| Rounding.RoundsToOne | src/policy.cpp:41-44 | a quotient has at most one nearest double |
| Rounding.SumBounds | src/policy.cpp:42-45 | a running sum whose additions round is the exact sum up to the accumulated error, either way |
| Rounding.RoundedShare | src/policy.cpp:43-45 | the rounded quotient times ten is within 3.1% above and 3% below ten times the exact share |
| AddressIndex.MergeHolds | include/cxlendpoint.h:446-456 | the merged spans hold exactly the addresses given, duplicates included |
| AddressIndex.MergeOrdered | include/cxlendpoint.h:446-456 | starts and ends of the merged spans both ascend, also where duplicates make them overlap |
| AddressIndex.SpansExpand | include/cxlendpoint.h:436-459 | written out, the spans are the held addresses in ascending order, repetitions included, and no two neighbours could be joined |
| AddressIndex.IndexIsHistory | include/cxlendpoint.h:424-470 | after every run the index is valid exactly if it was updated or built since the last invalidation |
| AddressIndex.LocalIffHeld | include/cxlendpoint.h:436-470 | over freshly built spans the query is membership |
| AddressIndex.AnswersSnapshot | include/cxlendpoint.h:424-470 | after every run an invalid index answers membership, a valid one membership when the spans were last built |
| AddressIndex.GuardedNeverLocal | src/cxlendpoint.cpp:36-47 | queried only after the address cache was updated, as in the program, the index never reports an address as local |
| AddressIndex.Indexed.UpdateAddressCache | include/cxlendpoint.h:424-430 | collects the addresses and marks the index valid without touching the spans |
| AddressIndex.Indexed.UpdateRangeCache | include/cxlendpoint.h:436-459 | sorts and merges in place |
| AddressIndex.Indexed.LowerBound | include/cxlendpoint.h:464-465 | finds the first span that does not end before the address |
| AddressIndex.Indexed.IsAddressLocal | include/cxlendpoint.h:461-470 | rebuilds if invalid and answers; membership whenever it rebuilt |
| Expander.CreditsConserved | src/cxlendpoint.cpp:168-232 | over every run, credits, requests in flight and replaced requests of a kind add up to 2 |
| Expander.ReachableBounds | src/cxlendpoint.cpp:590-622 | in every reachable state at most 64 are queued, at most 4 in flight, at most 2 credits of a kind, none negative |
| Expander.DrainedCredits | src/cxlendpoint.cpp:548-560 | once everything in flight is complete, all credits of a kind are back exactly if none was replaced in flight |
| Expander.BlockedForever | src/cxlendpoint.cpp:605-621 | a queue headed by a kind whose credits are all lost only grows, whatever happens |
| Expander.FullForever | src/cxlendpoint.cpp:168-196 | once such a queue is full every later request is refused |
| Expander.HeadIssued | src/cxlendpoint.cpp:590-622 | otherwise the head is issued once everything in flight is complete |
| Expander.BlockedIff | src/cxlendpoint.cpp:590-622 | no waiting ever issues the head of a queue if and only if all credits of its kind are lost |
| Expander.BlockedVisible | src/cxlendpoint.cpp:532-538 | blocked is what a caller can see: a queue whose head has no credit of its kind and none in flight to come back |
| Expander.WritesGetBlocked | src/cxlendpoint.cpp:168-232 | for any three addresses there is a run of insertions of them that blocks the queue on a write for ever |
| Expander.ReadsSurvive | src/cxlendpoint.cpp:168-232 | while no address with a read queued or in flight is freed, at most one read is ever replaced in flight |
| Expander.ReadsNeverBlocked | src/cxlendpoint.cpp:168-232 | so a queue is blocked on a read only after such a free |
| Expander.ReadsGetBlocked | src/cxlendpoint.cpp:168-270 | one address, freed twice while it is read and inserted again, blocks the queue on a read for ever |
| Expander.OccupationIsHistory | src/cxlendpoint.cpp:168-270 | after every run the addresses held are those accepted, each at its last acceptance, but for those freed since |
| Expander.ReplyFollowsHistory | src/cxlendpoint.cpp:168-232 | after every run an insertion returns 0 for another expander or a full queue, 2 exactly if its address is held, and otherwise 1 |
| ExpanderHistory.ProcessIs | src/cxlendpoint.cpp:590-622 | a pipeline call removes exactly the completed requests, returns their credits up to two of a kind, and issues the longest prefix of the queue that room and credits allow |
| ExpanderHistory.PipelineRuns | src/cxlendpoint.cpp:168-232 | only insertions of this expander and latency measurements run the pipeline; an accepted insertion queues its own request behind it |
| ExpanderHistory.QueueIsHistory | src/cxlendpoint.cpp:168-232 | after every run the requests that wait are the last ones accepted, in order and as they came |
| ExpanderHistory.KeptAre | src/cxlendpoint.cpp:249-270 | a free leaves exactly the addresses it keeps, in order |
| ExpanderHistory.CacheIsHistory | include/cxlendpoint.h:424-434 | after every run the address cache and its validity follow from the rebuilds, stores, frees and deletions so far |
| Expander.MemExpander.ReleaseCredit | src/cxlendpoint.cpp:548-560 | gives a credit back, never beyond the initial two |
| Expander.MemExpander.CompleteRequests | src/cxlendpoint.cpp:593-603 | removes exactly the completed requests and returns their credits |
| Expander.MemExpander.IssueRequests | src/cxlendpoint.cpp:605-621 | issues from the head while credits and room last, and ends |
| Expander.MemExpander.ProcessQueuedRequests | src/cxlendpoint.cpp:590-622 | completes and issues in place, keeping the credits conserved |
| Expander.MemExpander.Refresh | src/cxlendpoint.cpp:201-217 | moves the first entry of a known address to the end, or finds none |
| Expander.MemExpander.EnqueueRequest | src/cxlendpoint.cpp:175-229 | queues a read for a known address and a write for a new one, or refuses |
| Expander.MemExpander.InsertRequest | src/cxlendpoint.cpp:168-232 | performs the insertion in place and returns its code |

## Left out

- Latency, bandwidth, LogP and congestion formulas: floating-point arithmetic; where a latency decides a time it is a
  parameter of the model.
- The memory model below sequential consistency: in the ring queue each atomic access and each message copy is one
  step in a single order.
- 64-bit wrap-around of statistics counters; versions, message counts and addresses do wrap where the code relies on it.
- Sockets, RDMA, shared-memory set-up, message matching by id, the polling of request slots, logging and option
  parsing: input and output, or no statement of their own.
- LSA, shared-memory information and fence requests beyond their effect on the line table, and the dirty-update flags
  that depend on the wall clock.
- `perform_migration`, the NUMA and heat-aware policies and `rebalance_bandwidth`: heuristics over floating-point
  scores.
- The remote expander's own insert and cache (src/cxlendpoint.cpp:1328-1345), and fields nothing in a model reads:
  issue times, `last_timestamp`, access counts, head ids of messages.
- Lru.LruCache.Remove: `remove` is proved as a step and is not part of the runs of the recency theorems.
- Lru.LruCache.Put: requires a capacity of at least 1, since on capacity 0 the program pops an empty list.
- Mhsld.MhsldDevice.ReleasePool: requires that the walk ends; `Mhsld.ReleaseWalk` says exactly when it does.
- InterleavePolicy.Policy.ComputeOnce: requires that the retry ends; `InterleavePolicy.RetryEndsIff` says exactly when
  it does. The weights are given to the constructor.
- InterleavePolicy.EqualExpanders: doubles are reals with a relative rounding error; overflow, underflow and infinite
  speeds of zero latencies are not modelled.
- RobWindow.RobCounters.InsertOne: requires that no empty queue is popped, which the program does not survive;
  `RobWindow.SafeIffOneThread` says for how many threads that never happens.
- MemoryServer.ThreadPerConnectionServer.HandleRequest: requires atomics inside the region and 64 data bytes with a
  write, as the message format has them.
- HdmDecoder.Decoder.SortRanges: the library sort is an insertion sort; `HdmDecoder.SearchIsScan` holds for every
  sorted permutation. Indices are not limited to 32 bits.
- AddressIndex.Indexed.LowerBound: the library search is written out as a halving loop.
- ChasingIndex.InitChasingIndex: requires at least one slot, since the program divides by zero without; a failing
  random source is the end of the sequence of draws.
- Expander.ReadsSurvive: runs that free no address being read; `Expander.ReadsGetBlocked` is what happens otherwise.
- MemoryServer.ThreadPerConnectionServer.HandleAtomicRequest: atomics inside the region; the program does not test the
  address and reaches past the data otherwise, which the model cannot follow.
- MemoryServer.ThreadPerConnectionServer.StoreWord: words inside the region, likewise.
- Interleaving inside an operation of the server, the engine, the multi-headed device and the expander: each operation
  is one step, as under the program's locks; the multi-headed device locks entry by entry, so its operations on several
  lines or heads are coarser here than there.
