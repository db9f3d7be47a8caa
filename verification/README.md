# Verified models of the course-work system pieces

This project models six state machines of the repository in Dafny and proves what they do on every input and over every
run. The fixed sizes of the programs (number of frames, buffer size, heap size, capacity) are parameters, except where a
bit mask fixes them.

| file | what it models |
|---|---|
| `Competitive.dfy` | schedules and their cost, and the bound for every conservative paging policy |
| `FifoPaging.dfy` | the FIFO page replacement loop (Practicum/pagereplacement.c) |
| `Recency.dfy`, `Tlb.dfy`, `Translator.dfy`, `TranslatorRuns.dfy` | the address translator of PracticumV2/main.c as a state machine: reference histories, the lookaside buffer, one translation, whole runs |
| `AllRuns.dfy` | that translator over every run, safe or not |
| `LruPaging.dfy` | how often the LRU buffer of that translator misses |
| `VmTables.dfy`, `Simulator.dfy` | the same translator as objects over arrays updated in place, proved equal to the state machine |
| `Collector.dfy` | the mark-and-sweep collector (Practicum/myA8.c) |
| `Blocks.dfy`, `Allocator.dfy` | the first-fit allocator (A7/malloc.c): lists of blocks, and the headers rewritten inside the heap |
| `Monitor.dfy` | the bounded buffer (A6/src/main/java/boundedBuffer.java) as a monitor |
| `Polybius.dfy` | the Polybius cipher (A2/polybius.c) |
| `Sequences.dfy` | facts about sequences that the models share |

## What comes out

**FIFO paging.** The frames are always the last k faulting pages, in a ring. For all h <= k, FIFO with k frames faults
at most k/(k-h+1) times as often as any schedule with h frames loads pages, on every reference string, with no additive
constant. With h = k this is the classical factor k. FIFO is itself such a schedule and its faults are that cost. The
bound is proved for every *conservative* policy, one that faults at most k' times where only k' <= k different pages are
referenced.

**Address translation.** Page number 0 is also the mark of an empty slot of the lookaside buffer. Every translated value
is the byte of the backing store, for every store, exactly when each reference to page 0 comes once all slots have been
written, or under FIFO after an earlier one, or where the first slot never written holds the mark for no frame or by
chance the frame of page 0. That test looks at the references and the frame numbers at the start; if none of those is
the mark, page 0 must wait until all slots have been written. Where the store is shorter than the page asked for, the
result holds for the bytes that the store has.

Even where page 0 is referenced too early, no other page is ever read wrongly in that run or later, every mapped frame
holds its page, and misses, faults and page table are known from the references and the frame numbers at the start.

**The lookaside buffer.** The FIFO insertion is meant as a queue in which a page that is there moves to the end. It is
one exactly when every page comes in new while there is room and is there already once there is none, or the buffer has
a single slot; any step of another kind leaves some page in two slots. Under LRU the contents after any references, page
0 among them, are a function of the references: page 0 is there while it *lodges*, and the other pages are there exactly
when fewer others than there are slots left for them were used since. Hence larger buffers include smaller ones and
never hit less. That is true LRU, with page 0 counted like any other page, exactly when no page from outside comes in
while page 0 is among the n most recent pages but not the last of them. On references of that kind, all those without
page 0 among them, the buffer misses at most n/(n-h+1) times as often as any schedule with h <= n slots loads pages.

**Collector.** From clear marks, with everything reachable on the heap list, a collection leaves exactly the objects
reachable from the roots, in their order, with all marks clear. The contract covers leftover marks and objects off the
list as well.

**Allocator.** Sizes are machine words. A run of requests and releases keeps the heap tiled throughout exactly when no
request *overruns*: the request plus a header wraps around, and the test for room then takes the last block for large
enough, which no block is. A request leaves all live blocks alone exactly when it is `Safe`: the search tests only the
size of the last block, in words, not whether it is free, and a first block of size 0 makes the allocator set up the
heap again. Freeing what was just allocated restores the list of blocks, but the merging pass steps off the end of the
list, where the program reads through a null pointer, exactly when the last block had been split; in general exactly
when the heap ends in a run of free blocks of even length. A pass turns every maximal run of k free blocks into half as
many, rounded up, and m passes remove all free neighbours exactly when no run is longer than 2^m. On a heap that is set
up, a request that fails changes nothing, and one that succeeds changes one block.

**Bounded buffer.** No interleaving, with barging threads and spurious wake-ups, loses a wake-up. With room for at least
one item, fetchers and depositors never wait for each other, every run is finite up to spurious wake-ups, and the main
program, with any number of threads, always finishes. Each deposit overwrites the whole buffer with filler, so a fetch
returns the datum a queue would return exactly when it is the only one pending (or the filler agrees with it); in the
main program it always is.

**Polybius.** The table generator finishes exactly when every letter is drawn, and then its table is a permutation of
the 25 letters. Decoding undoes encoding up to case and characters outside the table, and encoding undoes decoding. What
the decoder makes of any other text is stated by taking it apart into numbers and other characters.

Where the code and its documentation disagree, the model follows the code: the allocator's readme describes merging
without the null-pointer read; the buffer's comments say that a fetch signals when the buffer is full, whereas it always
signals; the FIFO insert of the lookaside buffer is described as keeping FIFO order, which it does only under the
condition above.

## Model

| member | source | states |
|---|---|---|
| FifoPaging.Simulate | Practicum/pagereplacement.c:9-48 | fault count, frames and ring index after the whole loop, in terms of the sequence of faulting pages |
| FifoPaging.Serve | Practicum/pagereplacement.c:19-36 | one reference: a resident page changes nothing, another page takes the oldest frame |
| FifoPaging.Search | Practicum/pagereplacement.c:23-29 | the search finds the page exactly when it is resident |
| FifoPaging.SlotIsRemainder | Practicum/pagereplacement.c:35 | the ring index is the number of faults modulo the number of frames |
| FifoPaging.RingKeeps | Practicum/pagereplacement.c:31-36 | a loaded page stays in its frame until k more pages have been loaded |
| FifoPaging.Resident | Practicum/pagereplacement.c:23-36 | a page is resident exactly when it is among the last k faulting pages |
| FifoPaging.FirstReferenceFaults | Practicum/pagereplacement.c:13-16 | a new page faults, except the number -1 while a frame is still empty |
| FifoPaging.ConsecutiveLoadsDistinct | Practicum/pagereplacement.c:19-36 | any k+1 consecutive faults load pairwise distinct pages |
| FifoPaging.ResidentDistinct | Practicum/pagereplacement.c:23-36 | no page occupies two frames |
| FifoPaging.FifoIsSchedule | Practicum/pagereplacement.c:19-36 | FIFO's memory is a schedule with k frames whose cost is the fault count |
| FifoPaging.FifoConservative | Practicum/pagereplacement.c:19-36 | where at most k different pages are referenced, FIFO faults at most once for each |
| FifoPaging.FifoCompetitive | Practicum/pagereplacement.c:19-36 | (k-h+1) * faults <= k * cost, against every schedule with h <= k frames |
| Competitive.ConservativeCompetitive | Practicum/pagereplacement.c:19-36 | the same bound for every policy whose faults are conservative in that sense |
| Recency.RankStep | PracticumV2/main.c:450-496 | how one more reference changes the order of use |
| Recency.RankAndAge | PracticumV2/main.c:458-478 | the order of use is the order of the times since the last use |
| Recency.RankIsReuseDistance | PracticumV2/main.c:450-496 | the rank of a page is the number of distinct pages referenced since its last use |
| Tlb.FifoEntries | PracticumV2/main.c:394-447 | where each slot's content comes from in a FIFO insertion, page and frame alike |
| Tlb.FifoMoved | PracticumV2/main.c:425-443 | a page that is there: all slots of both arrays after the insertion, with room left and without |
| Tlb.FifoAdded | PracticumV2/main.c:410-423 | a page that is not: all slots of both arrays |
| Tlb.FifoDuplicates | PracticumV2/main.c:411-422 | a page that enters a full FIFO buffer fills the last two slots, which is the queue only if there is but one slot |
| Tlb.FifoPresent | PracticumV2/main.c:425-443 | in a full buffer that is a step of the queue; with room left the entry that was last and the page are both behind the rest, so some page is in two slots |
| Tlb.FifoExactly | PracticumV2/main.c:394-447 | an insertion is a step of the queue exactly when a new page finds room, a page that is there finds none, or there is one slot |
| Tlb.LruPresent | PracticumV2/main.c:458-482 | a page that is there: pages and frames stay, and the age of every slot |
| Tlb.LruAdded | PracticumV2/main.c:458-512 | a page that is not takes the first slot that looks empty, else the first of the oldest; every other slot keeps page and frame, and ages or not |
| Tlb.LruStep | PracticumV2/main.c:451-496 | an LRU insertion of any page keeps: which pages the slots hold, without duplicates, how many are filled, and the age of each page but page 0 |
| Tlb.KeptHit | PracticumV2/main.c:454-480 | a reference to a page that is held changes none of the pages held |
| Tlb.KeptLodging | PracticumV2/main.c:464-486 | a page that comes in while some slot looks empty displaces nothing but page 0 |
| Tlb.KeptFull | PracticumV2/main.c:487-496 | a page that comes in otherwise displaces the page used least recently |
| Tlb.DepthIsReuseDistance | PracticumV2/main.c:450-496 | the depth of a page is the number of distinct pages other than page 0 referenced since its last use |
| Tlb.KeptGrows | PracticumV2/main.c:450-496 | more slots hold all that fewer hold |
| Tlb.AgesDistinct | PracticumV2/main.c:458-478 | no two pages of the buffer have the same age, page 0 apart |
| Tlb.OldestIsDeepest | PracticumV2/main.c:489-512 | in a full buffer without page 0 the oldest entry is the page of the greatest depth |
| Tlb.LruEvictZero | PracticumV2/main.c:464-486 | in a full buffer with page 0 a new page takes its slot, and the other pages stay |
| Tlb.PageZeroGoesFirst | PracticumV2/main.c:464-470 | page 0 in a full LRU buffer is put out by the next page to come in, however recent it is |
| Tlb.OrderStep | PracticumV2/main.c:451-496 | from the n most recent pages, page 0 among them, an insertion leads to the n most recent exactly when it is not a page from outside with page 0 among the n but not the last of them |
| Tlb.OrderExactly | PracticumV2/main.c:451-496 | the buffer holds the n most recent pages throughout exactly when every reference is of that kind, a test on the references alone |
| Tlb.OrderWithoutZero | PracticumV2/main.c:451-496 | every reference string without page 0 passes the test |
| Translator.AddressSplit | PracticumV2/mymalloc.c:545-559 | page number and offset are quotient and rest by 256 of the low 16 bits of the address, and lead to the store position that these bits are as a number |
| Translator.RoomForPage | PracticumV2/main.c:381-387 | a page that is not in the page table finds a free entry and a free frame |
| Translator.ReadFromStore | PracticumV2/main.c:363-390 | a fault keeps page table and frames well formed |
| Translator.TranslateCounts | PracticumV2/main.c:308-340 | in any state: hits, misses, faults and page table after a translation; only a page that the buffer has no frame for and the page table lacks is mapped |
| Translator.TranslateLoads | PracticumV2/main.c:332-390 | in any state: a translation that maps a page loads its bytes into the next frame, with stale bytes past the end of the store; any other leaves memory alone |
| Translator.TranslateYields | PracticumV2/main.c:301-352 | in any state: the pair that the buffer takes in, and the value read |
| Translator.SafeResolve | PracticumV2/main.c:301-341 | a safe lookup yields the frame of the page and adds to the page table only a page that was missing |
| Translator.FifoCoherent | PracticumV2/main.c:394-447 | FIFO insertion keeps every slot in agreement with the page table |
| Translator.LruCoherent | PracticumV2/main.c:451-496 | LRU insertion keeps every slot in agreement with the page table |
| Translator.SafeState | PracticumV2/main.c:299-360 | a safe translation keeps the buffer in agreement with the page table and every frame in agreement with the store |
| Translator.SafeValue | PracticumV2/main.c:351-352 | a safe translation reads the byte of the store |
| TranslatorRuns.LruRun | PracticumV2/main.c:450-496 | over every run: contents and ages of the LRU buffer |
| TranslatorRuns.FifoQueueExactly | PracticumV2/main.c:394-447 | the FIFO buffer is the queue throughout a run exactly when every reference is a step it gets right, a test on the references alone |
| TranslatorRuns.WrittenIsFilled | PracticumV2/main.c:394-496 | how many slots have been written after any run, from the references alone |
| TranslatorRuns.FifoHoldsAll | PracticumV2/main.c:411-447 | until the FIFO buffer is full it holds every page referenced |
| TranslatorRuns.SafeExactly | PracticumV2/main.c:301-334 | a lookup of page 0 finds its frame exactly when the test on references and initial frame numbers says so |
| TranslatorRuns.WaitingIsSafe | PracticumV2/main.c:308-334 | it passes the test to wait until all slots are written, and if no slot starts with the mark for no frame nothing else passes |
| TranslatorRuns.SafeRun | PracticumV2/main.c:245-258 | over every safe run: coherence, and the page table lists the pages in the order of first use |
| TranslatorRuns.Transparent | PracticumV2/main.c:299-360 | every value of a safe run is the byte of the store at its address |
| TranslatorRuns.SafeValues | PracticumV2/main.c:245-258 | the same for the whole sequence of values |
| TranslatorRuns.FaultsAreDistinctPages | PracticumV2/main.c:332-340 | the faults are the distinct pages referenced, never more than there are frames |
| TranslatorRuns.HitsAndMisses | PracticumV2/main.c:308-334 | in a safe run hits and misses add up to the translations and those that hit a slot marked as holding no frame, which count as both; every fault is a miss |
| TranslatorRuns.LruHitsExactly | PracticumV2/main.c:308-314 | over every run, whether page 0 is in the buffer, and that another page is exactly when its reuse distance, page 0 apart, is smaller than the room for it |
| TranslatorRuns.LruReuseDistance | PracticumV2/main.c:308-314 | when the order is kept, a page is in the buffer exactly when its reuse distance is smaller than the buffer, but for the empty slots that look like page 0 |
| TranslatorRuns.LruOrderExactly | PracticumV2/main.c:451-496 | the buffer of a run holds the most recently used pages throughout exactly when all references keep the order |
| TranslatorRuns.LruEvictsLeastRecent | PracticumV2/main.c:464-512 | over every run, the entry replaced in a full buffer is page 0 if it is there, and else the one page used least recently |
| TranslatorRuns.LruInclusion | PracticumV2/main.c:308-314 | over every run a larger LRU buffer holds whatever a smaller one holds |
| TranslatorRuns.HitsStep | PracticumV2/main.c:308-314 | the hit counter goes up exactly when the page is in the buffer |
| TranslatorRuns.LruHitsGrow | PracticumV2/main.c:308-314 | over every run the hit count never drops as the buffer grows |
| TranslatorRuns.SafeMemory | PracticumV2/main.c:322-390 | what a safe translation does to memory depends on memory and page alone |
| TranslatorRuns.PolicyIndependent | PracticumV2/main.c:343-352 | page table, memory, fault count and values are the same under both policies and all buffer sizes |
| TranslatorRuns.UnsafeReference | PracticumV2/main.c:308-314 | any other reference to page 0 reads a frame that page 0 is not in |
| TranslatorRuns.TransparentExactly | PracticumV2/main.c:299-360 | all values are right for all stores exactly when every reference to page 0 passes the test, whatever the slots hold at first |
| AllRuns.SoundAlways | PracticumV2/main.c:245-258 | over every run, safe or not: every mapped frame holds its page, and every written slot but for page 0 the frame of its page |
| AllRuns.OnlyPageZeroFails | PracticumV2/main.c:299-360 | after any references a reference to a page other than page 0 reads the byte of the store |
| AllRuns.PageZeroReads | PracticumV2/main.c:299-360 | after any references, what a reference to page 0 reads: by the frame number of its slot, or its own byte if there is none |
| AllRuns.BufferAlways | PracticumV2/main.c:394-496 | over every run, which pages are in the buffer, from the references alone |
| AllRuns.MissedExactly | PracticumV2/main.c:308-322 | over every run, which lookups find no frame in the buffer, from the references and the initial frame numbers |
| AllRuns.FaultsAlways | PracticumV2/main.c:321-340 | over every run: the page table lists the pages missed in order of the first miss, each faults once, and the misses are all of them |
| LruPaging.RankWithin | PracticumV2/main.c:450-496 | a page used in the last stretch has fewer pages ahead of it than the stretch has pages |
| LruPaging.LruConservative | PracticumV2/main.c:450-496 | where at most n different pages are referenced, each is outside the n most recent ones at most once |
| LruPaging.MissesAreFaults | PracticumV2/main.c:308-314 | while the order is kept the buffer misses only pages outside the n most recent ones, and without page 0 all of those |
| LruPaging.LruCompetitive | PracticumV2/main.c:308-314 | while the order is kept (n-h+1) * misses <= n * cost, against every schedule with h <= n slots |
| LruPaging.LruIsSchedule | PracticumV2/main.c:450-496 | the n most recent pages are a schedule whose cost is the number of its faults |
| VmTables.VmTable.constructor | PracticumV2/mymalloc.c:314-358 | a new table has its page numbers cleared and its counters at 0 |
| VmTables.VmTable.Search | PracticumV2/main.c:308-314 | the search finds the first entry with the page |
| VmTables.VmTable.ShiftEntries | PracticumV2/main.c:417-421 | the shifting loop on both arrays |
| VmTables.VmTable.InsertFifo | PracticumV2/main.c:394-447 | the in-place insertion is the FIFO insertion of the state machine |
| VmTables.VmTable.GetOldestEntry | PracticumV2/main.c:499-512 | the scan returns the first of the oldest entries |
| VmTables.VmTable.AgeEntries | PracticumV2/main.c:454-478 | the ageing pass: new ages, whether the page is there, the first empty slot |
| VmTables.VmTable.InsertLru | PracticumV2/main.c:451-496 | the in-place insertion is the LRU insertion of the state machine |
| Simulator.Machine.constructor | PracticumV2/main.c:200-202 | the tables and memory as they are set up |
| Simulator.Machine.Fread | PracticumV2/main.c:365-374 | the file buffer holds the page's bytes, and stale bytes past the end of the store |
| Simulator.Machine.LoadFrame | PracticumV2/main.c:376-379 | one frame is overwritten and no other |
| Simulator.Machine.FaultIn | PracticumV2/main.c:331-340 | a fault in place is the fault of the state machine |
| Simulator.Machine.Lookup | PracticumV2/main.c:301-341 | the lookup in place is that of the state machine |
| Simulator.Machine.Remember | PracticumV2/main.c:343-349 | the insertion by the chosen policy |
| Simulator.Machine.TranslateAddress | PracticumV2/main.c:299-360 | one translation in place is one step of the state machine |
| Simulator.Machine.TranslateAll | PracticumV2/main.c:245-258 | the reference loop: the final state is that of the run, and all values of a safe run are the bytes at the low 16 bits of the addresses |
| Collector.Mark | Practicum/myA8.c:108-116 | marks exactly what was marked and what is reachable through unmarked objects; terminates on cyclic graphs |
| Collector.ClosureContains | Practicum/myA8.c:108-116 | a set closed under the references contains whatever is reachable |
| Collector.MarkedExactly | Practicum/myA8.c:108-116 | marking an object and then its two fields in turn marks what the object reaches |
| Collector.BothRoots | Practicum/myA8.c:135-138 | what the first root hides from the second is live already |
| Collector.MarkRoots | Practicum/myA8.c:135-138 | after both roots exactly the live objects are marked |
| Collector.KeptMembers | Practicum/myA8.c:118-133 | the filtered list has the wanted members, each once |
| Collector.LiveIsLeast | Practicum/myA8.c:108-140 | the live objects are the least set with the roots and what was marked that follows the references of all but the latter |
| Collector.KeptInOrder | Practicum/myA8.c:118-133 | two objects that stay on the list keep their order |
| Collector.BytesIsProduct | Practicum/myA8.c:98-133 | the space accounted for is the number of objects times the size of one |
| Collector.LiveClosed | Practicum/myA8.c:108-140 | live objects refer to live objects only |
| Collector.Heap.NewObject | Practicum/myA8.c:98-106 | a new unmarked object at the head of the list, and its space accounted for |
| Collector.Heap.Sweep | Practicum/myA8.c:118-133 | the list is filtered to the marked objects in order, all its marks are cleared, the size is adjusted |
| Collector.Heap.GarbageCollect | Practicum/myA8.c:135-140 | the list is filtered to the live objects and the size is theirs; from clear marks, with everything reachable listed, it is exactly the reachable objects and no mark is left |
| Blocks.TilesSpace | A7/malloc.c:7-25 | sizes and headers add up to the heap |
| Blocks.TilesApart | A7/malloc.c:16-25 | two blocks of the list never overlap |
| Blocks.PassSplit | A7/malloc.c:69-88 | a pass treats the two sides of an allocated block each for itself |
| Blocks.PassOnEveryRun | A7/malloc.c:69-88 | a pass turns each maximal run of k free blocks, wherever it is, into half as many, rounded up |
| Blocks.PassPairs | A7/malloc.c:75-87 | in such a run the first two blocks become one, the next two, and so on |
| Blocks.PassKeeps | A7/malloc.c:69-88 | a pass keeps the tiling and every allocated block |
| Blocks.PassHalves | A7/malloc.c:69-88 | a pass halves the longest run of free blocks, rounding up |
| Blocks.PassesNeeded | A7/malloc.c:69-88 | m passes leave no two free neighbours exactly when no run is longer than 2^m |
| Blocks.PassFixed | A7/malloc.c:69-88 | a pass changes nothing exactly when there are no free neighbours, and otherwise shortens the list |
| Blocks.StepsOffExactly | A7/malloc.c:75-87 | the pass runs off the list exactly when the heap ends in an even number of free blocks |
| Blocks.PickIsFirstFit | A7/malloc.c:38-44 | the search stops at the first free block that is large enough, or at the last block |
| Blocks.SetUp | A7/malloc.c:7-36 | a first block of size 0 makes the heap one free block again, which serves any request that leaves room for its header |
| Blocks.MallocEffect | A7/malloc.c:46-64 | a request that fails leaves the list as it is; another changes only the block where the search stops, which is handed out whole or cut down with a free block of the rest behind it |
| Blocks.OthersStay | A7/malloc.c:46-64 | every other block stays, free or not |
| Blocks.MallocTiles | A7/malloc.c:16-65 | a request keeps the heap tiled exactly when it does not wrap around into overrunning the last block |
| Blocks.FreeTiles | A7/malloc.c:91-99 | every release keeps the heap tiled |
| Blocks.FreeHalves | A7/malloc.c:91-99 | a release halves the longest run of free blocks that there is with the block released, rounding up |
| Blocks.FreeRun | A7/malloc.c:91-99 | the free blocks around the one released become half as many with it, rounded up, and the rest fares as in a pass of its own |
| Blocks.RunTiles | A7/malloc.c:7-99 | over a run of requests and releases the heap is tiled throughout exactly when no request overruns the last block |
| Blocks.SafeIsIsolated | A7/malloc.c:28-65 | a safe request, wrapping around or not, keeps every live block with its address, size and flag, and returns none of them |
| Blocks.UnsafeIsNotIsolated | A7/malloc.c:33-57 | any other request loses or hands out a live block |
| Blocks.IsolationExactly | A7/malloc.c:28-65 | a request leaves every live block alone and returns none of them exactly when it is safe |
| Blocks.UnsafeRequests | A7/malloc.c:33-51 | two requests for the whole heap return the same payload; a first request for 0 bytes makes the next one forget every block |
| Blocks.OverrunRequest | A7/malloc.c:16-57 | after a request for the whole heap, one that wraps around to 0 gets the same payload and leaves no tiling |
| Blocks.LiveUntilReleased | A7/malloc.c:28-99 | over every run of safe requests that do not overrun, a live block keeps address, size and flag until it is released |
| Blocks.PayloadOwned | A7/malloc.c:16-57 | on success the payload has the size asked for; it lies within the heap, and meets no other block, exactly when the request does not overrun, and otherwise the two headers overlap |
| Blocks.PlaceOverruns | A7/malloc.c:16-25 | where the last block is overrun: the place and the size of the free block of the rest |
| Blocks.FailsExactly | A7/malloc.c:46-64 | a safe request fails exactly when nothing fits and it does not overrun, or the first fit leaves 1 to H bytes over |
| Blocks.AllocationUndone | A7/malloc.c:16-99 | freeing what was just allocated restores the list, and runs off it exactly when the last block was split |
| Blocks.RoomTestExactly | A7/malloc.c:52 | the test for room is right for every size exactly when size plus header does not wrap around, and otherwise compares with what is over |
| Blocks.HugeRequest | A7/malloc.c:38-64 | a request that wraps around fits no block and ends the search at the last block; it succeeds exactly when the test takes that block for large enough |
| Allocator.Heap.constructor | A7/mymalloc.h:8-19 | a zeroed heap |
| Allocator.Heap.Init | A7/malloc.c:7-11 | one free block over the whole heap |
| Allocator.Heap.Frag | A7/malloc.c:16-25 | splitting in place is the split on the list of blocks, in word arithmetic |
| Allocator.Heap.Search | A7/malloc.c:38-44 | the walk along the links stops where first fit says |
| Allocator.Heap.FindRoom | A7/malloc.c:37-65 | search and placement in place are those on the list of blocks; what is left at the block cut down when it is overrun |
| Allocator.Heap.PmMalloc | A7/malloc.c:28-65 | a request in place is the request on the list of blocks, including when it sets up the heap again; the heap stays sound exactly when the last block is not overrun, and otherwise its header claims the bytes asked for and links to within itself |
| Allocator.Heap.MergeStep | A7/malloc.c:75-87 | one turn of the merging loop |
| Allocator.Heap.Join | A7/malloc.c:77-82 | two neighbours become one block |
| Allocator.Heap.MergeFrag | A7/malloc.c:69-88 | the pass in place is the pass on the list, with the outcome of running off the end |
| Allocator.Heap.PmFree | A7/malloc.c:91-99 | a release in place is the release on the list; an address outside the heap is refused |
| Monitor.StretchWaits | A6/src/main/java/boundedBuffer.java:55-57 | a stretch that ends in waiting changes the status of its thread and nothing else |
| Monitor.StretchActs | A6/src/main/java/boundedBuffer.java:59-134 | all that a stretch of deposit or fetch changes otherwise: every slot, both indices, the count and every thread |
| Monitor.InvStep | A6/src/main/java/boundedBuffer.java:50-137 | every step keeps: a parked fetcher means as many signalled fetchers as items, and likewise for depositors and room |
| Monitor.InvAlways | A6/src/main/java/boundedBuffer.java:50-137 | so no interleaving loses a wake-up |
| Monitor.StuckMeans | A6/src/main/java/boundedBuffer.java:55-57 | when nobody can run, fetchers wait only on an empty buffer and depositors only on a full one, never both |
| Monitor.NoRoomDeadlocks | A6/src/main/java/boundedBuffer.java:37-42 | a buffer of capacity 0 deadlocks |
| Monitor.RunnableSteps | A6/src/main/java/boundedBuffer.java:50-137 | a thread that is not waiting always has a step |
| Monitor.RunsEnd | A6/src/main/java/boundedBuffer.java:50-137 | the number of steps is bounded but for spurious wake-ups |
| Monitor.BalanceKept | A6/src/main/java/boundedBuffer.java:77-123 | items plus deposits to come less fetches to come never changes |
| Monitor.MainFinishes | A6/src/main/java/boundedBuffer.java:138-222 | in every interleaving the main program can get stuck only when every thread has finished |
| Monitor.StoredAlways | A6/src/main/java/boundedBuffer.java:59-78 | the buffer is the latest filler but for the newest datum |
| Monitor.FetchReturns | A6/src/main/java/boundedBuffer.java:115-134 | a fetch returns the oldest pending datum exactly when it is the only one, or the filler agrees with it |
| Monitor.OlderDatumLost | A6/src/main/java/boundedBuffer.java:59-78 | after two deposits into two slots the filler is in front |
| Monitor.MainFetches | A6/src/main/java/boundedBuffer.java:138-222 | in every interleaving of the main program the buffer has at most one item, so every fetch returns the pending datum |
| Monitor.BoundedBuffer.constructor | A6/src/main/java/boundedBuffer.java:37-42 | an empty buffer |
| Monitor.BoundedBuffer.Deposit | A6/src/main/java/boundedBuffer.java:50-95 | one stretch of deposit in place is one step of the monitor |
| Monitor.BoundedBuffer.Fetch | A6/src/main/java/boundedBuffer.java:104-137 | one stretch of fetch in place is one step of the monitor, and what it returns |
| Monitor.BoundedBuffer.SignalOne | A6/src/main/java/boundedBuffer.java:90 | one waiting thread is woken if there is one |
| Polybius.GenerateTable | A2/polybius.c:40-64 | finishes exactly when every letter is drawn, with the letters in the order of first draw |
| Polybius.DrawLetter | A2/polybius.c:50-59 | draws until a letter comes that was not drawn before |
| Polybius.DrawnIsTable | A2/polybius.c:40-64 | the finished table is a permutation of the 25 letters |
| Polybius.DrawnAt | A2/polybius.c:40-64 | a letter drawn for the first time stands behind the different letters drawn before it |
| Polybius.TableIndex | A2/polybius.c:162-177 | the index leads back to the letter, and is 0 exactly for characters outside the table |
| Polybius.GetTableIndex | A2/polybius.c:162-177 | the nested search computes the index |
| Polybius.PbEncode | A2/polybius.c:67-110 | the two loops compute the encoding |
| Polybius.PbDecode | A2/polybius.c:115-149 | the scan over digit pairs computes the decoding |
| Polybius.DecodeTokens | A2/polybius.c:125-146 | decoding any text, taken apart into digit pairs, lone digits and other characters, gives the letters at its numbers above 10 |
| Polybius.EveryText | A2/polybius.c:125-146 | every text can be taken apart like that |
| Polybius.TableCharExactly | A2/polybius.c:182-187 | which letter a number leads to, in lower case, and which numbers lead outside the table |
| Polybius.DecodesToSmall | A2/polybius.c:115-149 | decoding gives letters from a to z only |
| Polybius.DecodeEncode | A2/polybius.c:67-149 | decoding an encoding gives the letters other than J in lower case, in both formats |
| Polybius.NormalChar | A2/polybius.c:67-149 | which characters that keeps: small letters as they are, capitals as small ones, no j and nothing else |
| Polybius.NormalAppend | A2/polybius.c:67-149 | it does so character by character |
| Polybius.SmallLettersReturn | A2/polybius.c:67-149 | a text of small letters other than j comes back from encoding and decoding as it was |
| Polybius.EncodeDecode | A2/polybius.c:67-149 | encoding the decoding of a well-formed cipher text gives it back |
| Polybius.EncodeInjective | A2/polybius.c:67-110 | two texts encode alike exactly when they have the same letters |

## Left out

- Allocator.Heap.PmMalloc: where the last block is overrun the program writes one header partly over another; the list and the header of the block cut down are stated, but not which bytes of the other one are spoilt, as headers are records.
- Allocator.Heap.PmFree: an address inside the heap must be the payload of a block; what the program does to other addresses is not modelled.
- Allocator.Heap.MergeFrag: the program's read through a null pointer ends the model's call with the outcome `false`; the list it has produced by then is the one stated.
- The payload bytes of the allocator's heap; headers are records at byte offsets.
- Machine widths of counters, ages, frame and object sizes: they are unbounded integers.
- Thread interruption in the monitor, and the text of the filler strings, which is a parameter.
- Which waiting thread the Java library signals: any of them may be.
- The overlapping `sprintf` and the size of the decoder's result buffer in the cipher; texts are built by appending. Reads outside the 25 letters make the decoder's result `None`.
- The random source of the cipher: it is an arbitrary stream of numbers from 0 to 24.
- Menus, printing, timing statistics, and reading addresses from a file: addresses are a sequence of 32-bit words and the store is a sequence of bytes.
- PracticumII and its variants (sockets, files and threads around `send` and `recv`): I/O plumbing.
- The allocator and disk paging of PracticumV2/mymalloc.c, the paging of PracticumI/malloc.c, the locking of A8/malloc.c, Practicum/virtualmem.c, Practicum/vmemcustomheap.c, the rest of Practicum/myA8.c, A1, A3, A4 and A5: easier, repeated, or not describing one state.
