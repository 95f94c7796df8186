# Verified models of a systems course repository

This project models, in Dafny, the parts of the repository that keep delicate state, and proves what
their clients rely on.

- **The boundary-tag allocator** (`mm.c` on `memlib.c`): an implicit free list with header and footer
  tags in a word-addressed memory, next-fit search with a roving pointer, splitting, heap extension
  and two-sided coalescing. `HeapLayout.dfy` says which list of blocks each operation must produce and
  proves what follows for a client; `Mm.dfy` holds the code, writing tags in place, and proves that
  memory always spells out that list.
- **The driver and the traces** (`mdriver.c`, `checktrace.pl`): whole runs. `HeapRun.dfy` follows a
  trace through the block lists, `Driver.dfy` replays it against the allocator with the linked range
  list of `Ranges.dfy`, and `CheckTrace.dfy` is the trace balancer.
- **The paging simulator** (`vm.c`): page table, frames, disk and eviction, shown to look like plain
  memory to the program on top (`Paging.dfy`); the least-recently-used policy with the inclusion
  between memories of different sizes (`Lru.dfy`); and the four sorting programs running through paged
  memory, with what `evaluate` measures of them (`Sorting.dfy`, `Evaluation.dfy`). Each program is tied
  to a pure function of memory for its result and another for the sequence of ints it touches, whose
  length is counted swap by swap, so that the number of accesses does not depend on the strategy, and
  under LRU more frames never mean more misses.
- **The file system reader** (`fs.c`): paths cut in place (`Paths.dfy`), directory search
  (`Directory.dfy`), inodes and the three levels of blocks (`FileExtract.dfy`).
- **The K-best sampler** (`fcyc.c`): `KBest.dfy`.

`dafny verify dfyconfig.toml` checks everything.

## How the source is represented

- Block starts are 8-aligned, so memory is an `array` of 8-byte words indexed by address / 8 and block
  boundaries are counted in words; the functions that compute sizes keep the wrap-around of `size_t`.
  Bytes come back where a client writes single bytes (`WordBytes`, `Memory.Memset`).
- The word below the heap, which `mm_free` reads for the first block (mm.c:236), belongs to someone
  else. `Mm.Below` lets it hold anything that does not make the step to the previous block wrap; such a
  value leads out of the heap or back to the freed block, and nothing is joined.
- `mm_malloc` ignores the result of `mem_sbrk` (mm.c:206). `Allocator.CanServe` asks that the extension
  is granted, and `HeapRun.FitsExactly` says for whole traces when it is: exactly when the break, a
  constant 1 to 8 bytes above `top`, ends within the limit.
- Ghost parameters such as a block index or an int index `i` with `virtAddr == 4 * i` only name what an
  address denotes.
- RANDOM eviction picks any resident page. Pages, frames and ints per page are parameters.
- Loops nested inside one C function appear as methods of their own, named in the table by what they
  do (`Scan`, `Reserve`, `JoinAbove`, `FindLeast`, `SiftDown`, `EmitBlock`, and so on).
- A block number that has no file leaves the C buffer unset; here every block number reads as some
  block.
- Samples and ratios are `real`.

## Where the code does something worth knowing

- `partition` takes its middle element at `(end - start) / 2`, not offset by `start` (vm.c:408, 417), so
  it can swap with an element below its window: exactly when `end < 3 * start`, the element there is a median of the
  three and the first is not (`Sorting.Partition`, `Sorting.StraysExample`). `quick_sort` called on a whole array sorts all the
  same, because every window it recurses into lies strictly above everything below it, where the
  stray element is never the median (`Sorting.BottomNeverStrays`, `Sorting.QuickSort`).
- `search_dir` lowers its entry count by a block's worth of entries before it searches that block
  (fs.c:291-293), and a negative bound stops nothing. `Directory.SearchAnswers` says what it answers
  on any disk. In a directory of n entries of 32 bytes laid out in order it reads every direct block to
  its end except block n - 1, of which it reads nothing, and the blocks of the other levels to their
  ends or not at all (`Directory.SeenInOrder`). So if n is not 1 every name in it is found, unless its
  entry holds the inode number -1, whatever the blocks outside the directory hold
  (`Directory.LookupInOrder`); the one entry of a directory with n = 1 plays no
  part (`Directory.LoneEntry`); and names left behind past the end are found as well, exactly where
  `Directory.PastTheEnd` says. `Directory.LonePathFails` shows a whole disk whose root directory holds
  the file "a" and on which the path "/a" leads nowhere.
- A failed search answers -1, and `port_fake_to_real` reads inode -1 all the same: the last inode slot
  of block 2, the data bitmap (`FileExtract.MissingInode`).
- Freeing what `mm_malloc` just returned restores the block list if and only if the heap was not
  extended (`HeapLayout.MallocFreeRoundTrip`).
- `eval_mm_valid` and `eval_mm_util` turn down every trace that reallocates or asks for zero bytes,
  since `mm_realloc` is a stub and `mm_malloc(0)` returns NULL.

## Model

| member | source | states |
|---|---|---|
| HeapLayout.AdjustedSizeHasRoom | A06-DynamicMemory/mm.c:89-96 | the block size has room for the request and two tags exactly when the request is at most 2^64 - 24; it is then a multiple of 8, at least 32, and wastes less than a word beyond the minimal payload |
| HeapLayout.FirstFromSpec | A06-DynamicMemory/mm.c:129-143 | the search specification picks the least fitting block of a stretch, or its end |
| HeapLayout.NextFitComplete | A06-DynamicMemory/mm.c:147-177 | next-fit gives up exactly when no free block is large enough, exactly when first-fit does, and otherwise takes the fitting block nearest the roving pointer in circular order |
| HeapLayout.PlaceTight | A06-DynamicMemory/mm.c:208-220 | a block is cut exactly when more than 32 bytes of it are not needed: then one boundary and one free block are added after the words needed, otherwise no boundary changes |
| HeapLayout.InitWF | A06-DynamicMemory/mm.c:106-125 | the initial heap is one well-formed free block at the first aligned address |
| HeapLayout.MallocWF | A06-DynamicMemory/mm.c:180-223 | an allocation keeps the heap invariant: tiling, sizes at least 32, no two free neighbours, roving pointer at a block |
| HeapLayout.MallocLive | A06-DynamicMemory/mm.c:180-223 | an allocation adds exactly the extent handed out, clear of all other live payloads and their tags |
| HeapLayout.MallocTop | A06-DynamicMemory/mm.c:195-207 | in words, the top moves only when no free block fits, by the words needed and 32 more if they are fewer than 32 |
| HeapLayout.SomeFitIs | A06-DynamicMemory/mm.c:134-139 | a request fits exactly when some free block has as many bytes as its adjusted size |
| HeapLayout.MissGrows | A06-DynamicMemory/mm.c:195-207 | when no free block has the t bytes needed, the heap grows by t bytes if t is at least 256, all of them handed out, and otherwise by t + 256 bytes, the upper 256 becoming a free block; when one has, the top stays |
| HeapLayout.FreeWF | A06-DynamicMemory/mm.c:226-262 | a free keeps the heap invariant and both ends of the heap, also when it swallows the block the roving pointer is at |
| HeapLayout.FreeBounds | A06-DynamicMemory/mm.c:234-262 | of the boundaries, exactly those between the freed block and a free neighbour go |
| HeapLayout.FreeLive | A06-DynamicMemory/mm.c:226-262 | a free removes exactly the freed extent from the live payloads |
| HeapLayout.LiveDisjoint | A06-DynamicMemory/mm.c:56-67 | the payload of a block starts 8 bytes into it and is as long as what was asked for; it is 8-aligned, inside the heap, and meets neither another block nor its own tags |
| HeapLayout.FullRecovery | A06-DynamicMemory/mm.c:234-262 | a well-formed heap has no live payload exactly when it is one free block with the roving pointer at its start |
| HeapLayout.FreeUndoesPlace | A06-DynamicMemory/mm.c:208-262 | freeing a block that was placed in a fitting free block restores the block list, split or not |
| HeapLayout.MallocFreeRoundTrip | A06-DynamicMemory/mm.c:180-262 | free after malloc restores boundaries and allocation state if and only if some block fitted |
| HeapLayout.HeldFits | A06-DynamicMemory/mm.c:94-96 | requested bytes plus two tags for each block fit below any boundary |
| MemLib.Memory.constructor | A06-DynamicMemory/memlib.c:25-35 | the simulated memory starts empty with 40 MB below its limit |
| MemLib.Memory.ResetBrk | A06-DynamicMemory/memlib.c:48-51 | the break returns to the start |
| MemLib.Memory.Sbrk | A06-DynamicMemory/memlib.c:58-69 | refuses exactly negative or too large increments and then changes nothing; else returns the old break and moves it |
| MemLib.Memory.Memset | A06-DynamicMemory/mdriver.c:641 | a client's fill sets exactly its bytes and no word it does not touch |
| WordBytes.SetByteReads | A06-DynamicMemory/mdriver.c:641 | writing one byte of a word is read back there and leaves the other bytes |
| Mm.TagRoundTrip | A06-DynamicMemory/mm.c:72-76 | size and allocation bit can be read back from a tag |
| Mm.ReadTags | A06-DynamicMemory/mm.c:64-85 | in a memory that spells out a block list, header and footer of every block are its size in bytes, plus 1 if it is in use |
| Mm.MarkCleans | A06-DynamicMemory/mm.c:99-103 | marking a block makes its tags right and disturbs no other block's tags |
| Mm.MarkKeepsLive | A06-DynamicMemory/mm.c:99-103 | marking a free block changes no live payload and nothing below the heap |
| Mm.MallocRepresents | A06-DynamicMemory/mm.c:208-220 | the tags mm_malloc writes spell out the specified block list and leave every live payload's contents alone |
| Mm.FreeRepresents | A06-DynamicMemory/mm.c:234-262 | the one block mm_free marks spells out the specified block list and leaves every payload that stays live alone |
| Mm.FreedSearch | A06-DynamicMemory/mm.c:247-259 | after both joins the roving pointer stands where the specified block list says |
| Mm.CursorIn | A06-DynamicMemory/mm.c:247-259 | the two moves of the roving pointer amount to this: from anywhere in the joined block to its start |
| Mm.FillKeeps | A06-DynamicMemory/mm.c:180-223 | client writes inside a payload keep the heap and every other payload |
| Mm.Allocator.MarkBlock | A06-DynamicMemory/mm.c:99-103 | header and footer become the size, plus 1 for a block in use, and no other word changes |
| Mm.Allocator.Init | A06-DynamicMemory/mm.c:106-125 | fails exactly when 4104 bytes are refused, else the heap is sound, one free block of 4096 bytes with the roving pointer at its start |
| Mm.Allocator.Scan | A06-DynamicMemory/mm.c:129-177 | a walk over headers ends, never steps past a boundary, and stops at the least fitting block or the limit |
| Mm.Allocator.FirstFit | A06-DynamicMemory/mm.c:129-143 | returns the lowest fitting block, or top |
| Mm.Allocator.NextFit | A06-DynamicMemory/mm.c:147-177 | returns and remembers the block next-fit specifies, or top |
| Mm.Allocator.Reserve | A06-DynamicMemory/mm.c:186-207 | finds or makes room: block, size and excess are those of the specified layout; the break moves exactly when no block fits, by the bytes needed and 256 more if they are fewer than 256 |
| Mm.Allocator.MarkServed | A06-DynamicMemory/mm.c:208-220 | splits exactly when the excess exceeds a minimal block, and writes just those tags |
| Mm.Allocator.Malloc | A06-DynamicMemory/mm.c:180-223 | NULL exactly for 0 bytes, else the payload of the specified block, at which the roving pointer is left; the break moves exactly when no block fits, by the adjusted size t, or t + 256 if t is below 256; the invariant, the gap between top and break, and the contents of all live payloads are kept |
| Mm.Allocator.JoinAbove | A06-DynamicMemory/mm.c:241-250 | a free block above is joined, and the roving pointer leaves it |
| Mm.Allocator.JoinBelow | A06-DynamicMemory/mm.c:234-259 | a free block below is joined and the roving pointer moves down; below the first block nothing is |
| Mm.Allocator.FooterBelow | A06-DynamicMemory/mm.c:69-87 | the footer below a block leads to the previous block's start; below the first block to no block above base |
| Mm.Allocator.Free | A06-DynamicMemory/mm.c:226-293 | the block list changes as specified, the invariant holds, and every payload that stays live keeps its contents; the roving pointer moves to the start of the joined block exactly if it stood in it |
| Mm.Allocator.Realloc | A06-DynamicMemory/mm.c:296 | always NULL |
| Mm.Allocator.Check | A06-DynamicMemory/mm.c:299-329 | on any memory whose headers can be walked: 0 exactly when all footers match their headers and the walk ends at top |
| Mm.Allocator.SoundPasses | A06-DynamicMemory/mm.c:299-329 | a sound heap can be walked and meets both conditions of the check |
| HeapRun.AllocKeepsInv | A06-DynamicMemory/mdriver.c:619-646 | serving an allocation keeps the run invariant: the table names exactly the live payloads, each once and with its size |
| HeapRun.FreeKeepsInv | A06-DynamicMemory/mdriver.c:684-692 | serving a free keeps the run invariant |
| HeapRun.RunInv | A06-DynamicMemory/mdriver.c:612-699 | every state a well-formed trace reaches satisfies the heap and run invariants |
| HeapRun.ClientView | A06-DynamicMemory/mm.c:180-262 | in every reachable state each outstanding id owns an 8-aligned payload of the requested size inside the heap, disjoint from all others and from every tag |
| HeapRun.PayloadStays | A06-DynamicMemory/mm.c:180-262 | a payload never moves while its id is outstanding |
| HeapRun.RunRecovers | A06-DynamicMemory/mm.c:226-262 | after any run the heap is a single free block with the roving pointer at base exactly when nothing is outstanding |
| HeapRun.HighWaterIsMax | A06-DynamicMemory/mdriver.c:743-750 | the high-water mark is the largest total over all prefixes |
| HeapRun.TotalIsHeld | A06-DynamicMemory/mdriver.c:743-790 | the running total is the sum of the bytes the blocks hold |
| HeapRun.TopMoves | A06-DynamicMemory/mm.c:195-207 | over a run the base is fixed and the top rises exactly at allocations nothing fits, by the words needed and 32 more if they are fewer than 32 |
| HeapRun.UtilisationBound | A06-DynamicMemory/mdriver.c:714-794 | the high-water mark of live bytes fits between base and the final top |
| HeapRun.FitsExactly | A06-DynamicMemory/mm.c:195-207 | every extension of a run is granted exactly when the final break is within the limit; the break is always 1 to 8 bytes above top |
| Ranges.RangeList.Add | A06-DynamicMemory/mdriver.c:381-429 | accepts exactly aligned ranges inside the heap with no end point in a listed range, and lists them first |
| Ranges.RangeList.Remove | A06-DynamicMemory/mdriver.c:436-451 | unlinks the first range that starts there, if any |
| Ranges.RangeList.Clear | A06-DynamicMemory/mdriver.c:456-466 | the list is empty |
| Ranges.WithoutIs | A06-DynamicMemory/mdriver.c:436-451 | with distinct starts, removal by start removes exactly that range |
| Driver.GivenPasses | A06-DynamicMemory/mdriver.c:381-429 | whatever the allocator hands out passes every test of add_range, though only end points are tested |
| Driver.ClientFill | A06-DynamicMemory/mdriver.c:637-641 | filling one's own payload keeps the allocator valid and all other payloads |
| Driver.ReplayAlloc | A06-DynamicMemory/mdriver.c:619-646 | refused exactly for zero bytes; else list, arrays, heap and contents stay in step |
| Driver.ReplayFree | A06-DynamicMemory/mdriver.c:684-692 | list, arrays, heap and contents stay in step |
| Driver.ReplayOne | A06-DynamicMemory/mdriver.c:612-699 | a request succeeds exactly if it is a free or a non-empty allocation |
| Driver.EvalMmValid | A06-DynamicMemory/mdriver.c:593-701 | accepts the allocator exactly on traces of frees and non-empty allocations; then the list is exactly the live payloads, every outstanding block lies aligned in the heap and each of its bytes is the id modulo 256, and a balanced trace leaves one free block and an empty list |
| Driver.Delivered | A06-DynamicMemory/mdriver.c:612-692 | in step with a run, each outstanding id has an aligned block of its size in the heap, full of the low byte of the id |
| Driver.FreeIsNoPeak | A06-DynamicMemory/mdriver.c:774-788 | leaving the maximum alone on a free is right |
| Driver.EvalMmUtil | A06-DynamicMemory/mdriver.c:714-794 | gives a value exactly on such traces: the high-water mark of live bytes over the distance of the break from its start, between 0 and 1 |
| CheckTrace.Balance | A06-DynamicMemory/traces/checktrace.pl:50-155 | dies exactly on an inconsistent line or, when printing, on an unknown command left over; the summary says balanced exactly if nothing is outstanding; the output is the non-blank input, then one free for each outstanding id, with the operation count raised by as many |
| CheckTrace.HashIs | A06-DynamicMemory/traces/checktrace.pl:70-116 | an id is in the hash exactly if some line entered it and no later line freed it, and counts as strange exactly if the last line to enter it was an unknown command |
| CheckTrace.DiesIs | A06-DynamicMemory/traces/checktrace.pl:70-116 | the script dies on its input exactly if some line it comes to frees or reallocates an id not in the hash, or allocates one that is there as allocated |
| CheckTrace.AfterStep | A06-DynamicMemory/traces/checktrace.pl:61-116 | lines are taken one after the other, and each that is not blank is kept |
| CheckTrace.PassesWellFormed | A06-DynamicMemory/traces/checktrace.pl:70-116 | on requests, the line checks pass exactly the well-formed traces and leave exactly the outstanding ids |
| CheckTrace.OutputIsBalanced | A06-DynamicMemory/traces/checktrace.pl:134-155 | the output extends the input, is consistent, leaves nothing outstanding, is a fixed point of balancing, and has a right operation count if the input had |
| CheckTrace.FreesDrain | A06-DynamicMemory/traces/checktrace.pl:148-153 | freeing outstanding ids, each once, takes exactly them out |
| CheckTrace.BalancedTraceEmptiesHeap | A06-DynamicMemory/traces/checktrace.pl:134-155 | replaying a balanced trace against the allocator ends with one free block |
| Trace.WellFormedPrefix | A06-DynamicMemory/traces/checktrace.pl:70-116 | what the line checks pass, they pass up to any line |
| Lru.LastUseFinds | A08-VirtualMemory/vm.c:162-170 | the last use of a page is the last place it has in the history |
| Lru.OldestUnique | A08-VirtualMemory/vm.c:193-216 | there is only one least recently used resident page |
| Lru.SameOrder | A08-VirtualMemory/vm.c:107-118 | pages were last used in the same order in memories of different sizes |
| Lru.StepIncluded | A08-VirtualMemory/vm.c:270-284 | one access keeps the inclusion and costs the larger memory no more |
| Lru.NoBelady | A08-VirtualMemory/vm.c:93-284 | for every access sequence and k <= k', the pages resident with k frames stay resident with k', and faults do not increase |
| Pages.ByteAddress | A08-VirtualMemory/vm.c:151-161 | dividing a byte address by the page size gives page and offset |
| Pages.RoundUpToPages | A08-VirtualMemory/vm.c:95 | the rounded quotient is the least number of pages with room |
| Paging.Simulator.Initialize | A08-VirtualMemory/vm.c:93-148 | sets up a valid simulator: resident are exactly the pages in use below the number of frames, history is the initial one of the policy, and contents are those of frames and files |
| Paging.Simulator.OriginIs | A08-VirtualMemory/vm.c:97-147 | ints of the pages that have frames start out as the data, the others as what the file of their page holds |
| Paging.Simulator.TranslateAddr | A08-VirtualMemory/vm.c:151-173 | -1 and no change exactly for a page that is not resident, else the address in its frame, the page being marked used |
| Paging.Simulator.PickOldest | A08-VirtualMemory/vm.c:193-216 | the page with the least marker is the resident page whose last use or load is earliest |
| Paging.Simulator.Evict | A08-VirtualMemory/vm.c:224-242 | writing the victim out keeps all abstract contents |
| Paging.Simulator.LoadPage | A08-VirtualMemory/vm.c:248-262 | reading the page in keeps all abstract contents and gives it a frame of its own |
| Paging.Simulator.HandlePageFault | A08-VirtualMemory/vm.c:176-263 | one resident page makes room, the oldest under LRU; contents are kept |
| Paging.Simulator.Access | A08-VirtualMemory/vm.c:270-284 | the cell found holds the addressed int; a fault is counted exactly when the page was not resident; the number of resident pages is constant |
| Paging.Simulator.Load | A08-VirtualMemory/vm.c:287-290 | returns the abstract cell whatever is evicted; under LRU the state moves as the policy does |
| Paging.Simulator.Store | A08-VirtualMemory/vm.c:293-296 | updates exactly the abstract cell; under LRU the state moves as the policy does |
| Paging.Simulator.MarkersDiffer | A08-VirtualMemory/vm.c:107-118 | markers of resident pages are distinct, none older than initialize and all below use_marker |
| Paging.Simulator.ResetCounts | A08-VirtualMemory/vm.c:470-471 | both counts start from zero and nothing else changes |
| Paging.RecordIs | A08-VirtualMemory/vm.c:270-296 | over any run of loads and stores the history grows by the pages touched, and under LRU the state is where the policy comes to |
| Paging.RecordStays | A08-VirtualMemory/vm.c:270-296 | a run that touches only resident pages changes neither residency nor faults, whatever the strategy |
| Paging.MoreFramesNeverHurt | A08-VirtualMemory/vm.c:93-296 | of two simulators that have accessed the same ints since initialize, the one with more frames holds all the other holds and has no more faults |
| Sorting.Swap | A08-VirtualMemory/vm.c:309-313 | exchanges two abstract cells, with four accesses |
| Sorting.Exceeds | A08-VirtualMemory/vm.c:325-372 | compares two abstract cells and touches just them |
| Arrays.ShuffledIs | A08-VirtualMemory/vm.c:315-348 | a shuffle keeps every element outside the stretch in place and has the same elements, as often, in it |
| Arrays.AscendingIs | A08-VirtualMemory/vm.c:315-348 | ascending means no element exceeds a later one |
| Sorting.SelectionSort | A08-VirtualMemory/vm.c:315-333 | the first n ints become ascending, a permutation of what they were, and no other int changes; n^2 + 5 n accesses |
| Sorting.FindLeast | A08-VirtualMemory/vm.c:322-329 | finds a least int from i on, with two accesses for each |
| Sorting.Insert | A08-VirtualMemory/vm.c:341-346 | the int goes before the greater ones that end where it stood, and the rest stay; 6 accesses for each of them, and 2 unless it gets to the front |
| Sorting.InsertionSort | A08-VirtualMemory/vm.c:335-348 | the first n ints become ascending, a permutation of what they were, and no other int changes; the ints touched depend on the ints alone |
| Sorting.Heapify | A08-VirtualMemory/vm.c:364-380 | the first n ints become a heap, permuted |
| Sorting.BiggerIsLarger | A08-VirtualMemory/vm.c:354-362 | biggestChild chooses a largest child, or an index past the heap if there is none |
| Sorting.BiggestChild | A08-VirtualMemory/vm.c:354-362 | computes that choice, touching the two children exactly if there is a right one |
| Sorting.SiftUp | A08-VirtualMemory/vm.c:371-377 | a new element of a heap trades places with its parent as long as it is greater, the elements on its path each moving one step down; 6 accesses a swap, and 2 for the comparison that ends it below the root |
| Sorting.SiftDown | A08-VirtualMemory/vm.c:389-401 | restores the heap under its root, leaving what is sorted alone; the root trades places with its larger child as long as that is greater, each element on its path moving one step up; 10 accesses a swap, less 4 if the last swap was with an only child, and 2 for each child of the place it comes to |
| Sorting.FallOnceIs | A08-VirtualMemory/vm.c:393-400 | the ints one swap of the fall touches, in order: the comparison, biggestChild once more, the swap, biggestChild below |
| Sorting.FallCosts | A08-VirtualMemory/vm.c:389-400 | the same count for the function that says what a fall touches |
| Sorting.RootIsGreatest | A08-VirtualMemory/vm.c:364-380 | the root of a heap is its greatest element |
| Sorting.HeapSort | A08-VirtualMemory/vm.c:382-403 | the first n ints become ascending, a permutation of what they were, and no other int changes; accesses add up over the rises, the root swaps and the falls |
| Sorting.HeapSortCosts | A08-VirtualMemory/vm.c:364-403 | so many ints the function of touches lists, whatever the ints |
| Sorting.ConstantHeapSort | A08-VirtualMemory/vm.c:364-403 | 10 n - 16 accesses on n equal ints, n at least 3 |
| Sorting.FourHeapSort | A08-VirtualMemory/vm.c:364-403 | 48 accesses on the ints 1 to 4 |
| Sorting.PivotIsMedian | A08-VirtualMemory/vm.c:413-422 | the pivot is a median of the three elements looked at |
| Sorting.ChosenIs | A08-VirtualMemory/vm.c:407-422 | the first element stays if it is a median, else it trades places with the element at (end - start) / 2 if that is one, else with the last; something below the window changes exactly when partition strays |
| Sorting.ChoosePivot | A08-VirtualMemory/vm.c:407-422 | does just that, with 3 accesses, or 7 if there is a swap |
| Sorting.NextIsLow | A08-VirtualMemory/vm.c:427-430 | compares the next element with the pivot after two loads whose results are not used, touching each twice |
| Sorting.StraysExample | A08-VirtualMemory/vm.c:405-422 | an input on which it does |
| Sorting.Divide | A08-VirtualMemory/vm.c:424-439 | everything in the window up to the pivot comes before it, everything greater after it; 8 accesses for each element but the pivot |
| Sorting.Partition | A08-VirtualMemory/vm.c:405-440 | divides the window at the returned index around a median of the elements first at start, (end - start) / 2 and end, permuting the window; something below it changes exactly if end < 3 start and the element at (end - start) / 2 is a median and the first is not; 8 accesses for each element but the pivot, and 3 or 7 to choose it |
| Sorting.BottomNeverStrays | A08-VirtualMemory/vm.c:405-448 | above smaller elements the misplaced middle is never chosen |
| Sorting.QuickSort | A08-VirtualMemory/vm.c:442-448 | ends and permutes what lies at or below end; above smaller elements, so on a whole array, it sorts its window and changes nothing else; accesses add up over the windows divided |
| Sorting.QuickCosts | A08-VirtualMemory/vm.c:405-448 | so many ints the function of touches lists, whatever the ints |
| Sorting.QuickAtMost | A08-VirtualMemory/vm.c:405-448 | at most (n - 1) (4 n + 7) accesses on n ints |
| Sorting.ConstantQuickSort | A08-VirtualMemory/vm.c:405-448 | (n - 1) (4 n + 3) accesses on n equal ints |
| Sorting.ThreeQuickSort | A08-VirtualMemory/vm.c:405-448 | the ints touched, in order, when three ints are sorted the first of which belongs in the middle |
| Sorting.QuickIntsSorted | A08-VirtualMemory/vm.c:405-448 | the same of the function that says what quick_sort makes of memory |
| Sorting.HeapSortSorts | A08-VirtualMemory/vm.c:364-403 | the function that says what heap_sort makes of memory sorts |
| Sorting.SelectionWithin | A08-VirtualMemory/vm.c:315-333 | selection_sort touches no int outside the n it sorts |
| Sorting.InsertionWithin | A08-VirtualMemory/vm.c:335-348 | nor does insertion_sort |
| Sorting.HeapSortWithin | A08-VirtualMemory/vm.c:364-403 | nor does heap_sort |
| Sorting.QuickWithin | A08-VirtualMemory/vm.c:405-448 | quick_sort touches no int above its window, though it may below |
| Evaluation.NoMisses | A08-VirtualMemory/vm.c:468-498 | when the pages in use fit into the frames, a program that stays within them never misses, whatever the strategy |
| Evaluation.SortCosts | A08-VirtualMemory/vm.c:472-498 | the length of what either program touches is that sum |
| Evaluation.Measure | A08-VirtualMemory/vm.c:468-498 | a measurement sorts freshly initialized memory and touches nothing outside what it sorts; accesses are the sum over the rises and falls, or over the windows divided, whatever the strategy, and for quick_sort at most (n - 1) (4 n + 7); there are no misses if the pages fit; use_marker moves by the accesses and the pages loaded |
| Evaluation.CompareFrames | A08-VirtualMemory/vm.c:468-498 | under LRU, heap_sort and quick_sort of the same memory miss no more often with more frames |
| FileExtract.SlotIs | A10-FileSystems/fs.c:102-115 | for every int the inode is at byte 64 (n mod 4) of block 3 + n div 4, rounding down, and lies inside its block |
| FileExtract.SlotsApart | A10-FileSystems/fs.c:102-115 | different inodes never overlap |
| FileExtract.MissingInode | A10-FileSystems/fs.c:102-115 | inode -1 is read from the end of block 2 |
| FileExtract.InodeFields | A10-FileSystems/fs.c:34-41 | size, eight direct, the indirect and the doubly-indirect reference are read at bytes 16, 24 to 52, 56 and 60 of the slot |
| FileExtract.IntAtIs | A10-FileSystems/fs.c:13-41 | four bytes, lowest first, in two's complement |
| FileExtract.LongAtIs | A10-FileSystems/fs.c:34-41 | eight bytes, lowest first, in two's complement |
| FileExtract.RefsAre | A10-FileSystems/fs.c:221-232 | reference i of a block is the int at byte 4 i |
| FileExtract.InodeRoundTrip | A10-FileSystems/fs.c:34-41 | an inode laid out as the struct says, two's complement and lowest byte first, in its slot is the inode read |
| FileExtract.RefsRoundTrip | A10-FileSystems/fs.c:28 | a block holding 64 references reads as those references |
| FileExtract.LogicalAt | A10-FileSystems/fs.c:377-455 | logical block j is direct, indirect, or in row (j - 72) / 64 of the doubly-indirect block |
| FileExtract.WrittenEnds | A10-FileSystems/fs.c:397-424 | leaving out later levels when nothing is wanted changes nothing |
| FileExtract.WrittenAt | A10-FileSystems/fs.c:374-455 | every byte written is the byte at its place in its logical block |
| FileExtract.ExtractionIsExact | A10-FileSystems/fs.c:374-455 | the bytes written are exactly filesize many, none for a negative size and 256 * 4168 for a larger one, byte k being byte k mod 256 of logical block k div 256 |
| FileExtract.EmitBlock | A10-FileSystems/fs.c:386-391 | appends as many bytes of a block as are wanted: all 256, the first ones, or none |
| FileExtract.EmitRefs | A10-FileSystems/fs.c:402-420 | appends the blocks of a list in order and counts down by a block for each |
| FileExtract.EmitRows | A10-FileSystems/fs.c:424-455 | appends the blocks of every row in order |
| FileExtract.EmitLevels | A10-FileSystems/fs.c:374-455 | the three levels together write the logical blocks in order |
| FileExtract.ExtractFile | A10-FileSystems/fs.c:366-458 | the file written is exact: filesize bytes if that is 0 to 256 * 4168, none if negative, 256 * 4168 if more |
| Paths.JoinNames | A10-FileSystems/fs.c:141-184 | joining the names of a path with slashes gives the path back |
| Paths.NamesHaveNoSlashes | A10-FileSystems/fs.c:141-184 | no name has a slash in it |
| Paths.NamesJoin | A10-FileSystems/fs.c:141-184 | cutting joined names gives the names back |
| Paths.CountDirs | A10-FileSystems/fs.c:146-154 | the count of slashes is one less than the number of names, so the array allocated fits them exactly |
| Paths.ParsePath | A10-FileSystems/fs.c:141-184 | the path ends up with terminators for slashes and nothing else changed, and entry j points at a C string that is name j |
| Directory.EntryReads | A10-FileSystems/fs.c:44-48 | a stored entry answers to its own name and to no other, and its inode number is read back |
| Directory.EntryFields | A10-FileSystems/fs.c:44-48 | entries are 32 bytes apart, the name first and the number at byte 16 |
| Directory.InBlockAnswers | A10-FileSystems/fs.c:189-216 | the scan of a block answers with the first entry looked at that has the name, or -1 |
| Directory.SearchDataBlock | A10-FileSystems/fs.c:189-216 | the loop computes that answer; a negative bound stops nothing |
| Directory.SearchIndirect | A10-FileSystems/fs.c:221-244 | the first answer other than -1 among the blocks referred to |
| Directory.SearchDoublyIndirect | A10-FileSystems/fs.c:249-271 | the first answer other than -1 among the blocks of all rows in order |
| Directory.FirstHitIs | A10-FileSystems/fs.c:221-271 | -1 exactly if no block answers, else the answer of the first that does |
| Directory.SearchDir | A10-FileSystems/fs.c:276-317 | the first answer over direct, indirect and doubly-indirect blocks, each searched with the bound the code gives it; the same as searching the inode read |
| Directory.ProbeAt | A10-FileSystems/fs.c:284-314 | the blocks searched are the logical blocks of the directory in order, each with its bound, as far as entries are left |
| Directory.SeenIs | A10-FileSystems/fs.c:199-314 | entry s of direct block i is looked at unless 0 <= entries - 8 (i + 1) <= s; entries of the indirect and doubly-indirect blocks exactly if s lies below what is left, which has to be positive |
| Directory.EntryCountIs | A10-FileSystems/fs.c:285 | the count is filesize / 4 rounded toward zero, within the range of an int |
| Directory.SearchAnswers | A10-FileSystems/fs.c:189-317 | on any disk: the answer is the inode number of the first entry with the name in the first logical block where such an entry is looked at and leads to an inode, or -1 if there is no such block |
| Directory.FoundIff | A10-FileSystems/fs.c:189-317 | an entry with the name, at any of the three levels, with no other entry that is looked at carrying it, is found exactly when it is looked at itself, its inode number not being -1 |
| Directory.SeenInOrder | A10-FileSystems/fs.c:284-314 | with n entries of 32 bytes, every direct block but block n - 1 is read to its end, indirect blocks if n > 8, doubly-indirect ones if n > 72 |
| Directory.SearchInOrder | A10-FileSystems/fs.c:276-317 | in such a directory the answer comes from the first block read that has a leading entry for the name, or is -1 |
| Directory.FirstEntryFound | A10-FileSystems/fs.c:276-317 | the first entry with the name, before or past the end, is the answer if its block is read |
| Directory.LookupInOrder | A10-FileSystems/fs.c:276-317 | in a directory of n entries in order, n not 1, the first entry with the name among them is the answer, its inode number not being -1, whatever the blocks outside the directory hold |
| Directory.LoneEntry | A10-FileSystems/fs.c:276-299 | with n = 1 the entry itself plays no part: the search fails exactly when no later direct block has a leading entry for the name |
| Directory.PastTheEnd | A10-FileSystems/fs.c:276-317 | a name no entry carries is answered exactly when a block that is read has a leading entry for it past the end |
| Directory.LoneEntryOverlooked | A10-FileSystems/fs.c:276-317 | a disk, with the directory's inode on it, on which searching inode 2 for its only entry fails |
| Directory.LonePathFails | A10-FileSystems/fs.c:323-340 | on that disk the path of that entry leads nowhere |
| Directory.FirstAnswerIs | A10-FileSystems/fs.c:329-339 | -1 exactly if no directory answers, else the answer of the first that does |
| Directory.AtPathIs | A10-FileSystems/fs.c:323-340 | the same of the function that says what search_path answers |
| Directory.SearchPath | A10-FileSystems/fs.c:323-340 | with n names that joined give the path: -1 exactly if none of the inodes 2 to n + 1, searched as directories, answers for the last name, else the answer of the first that does |
| Directory.PortFakeToReal | A10-FileSystems/fs.c:358-458 | the file copied out is exactly that of the inode so found, filesize bytes of it if that is 0 to 256 * 4168, and of inode -1 if none is found |
| KBest.BestUnique | A06-DynamicMemory/fcyc.c:67-88 | the k smallest samples in ascending order are one definite list |
| KBest.PlacedParts | A06-DynamicMemory/fcyc.c:67-88 | placing a sample and sorting leaves the k smallest of all samples |
| KBest.AgreeIs | A06-DynamicMemory/fcyc.c:93-98 | k samples lie within epsilon times the least of it exactly if the last value kept does |
| KBest.Sampler.InitSampler | A06-DynamicMemory/fcyc.c:50-62 | no samples are left |
| KBest.Sampler.Settle | A06-DynamicMemory/fcyc.c:81-87 | insertion by swaps sorts the kept samples without losing one |
| KBest.Sampler.AddSample | A06-DynamicMemory/fcyc.c:67-88 | the first min(count, k) values remain the k smallest of all samples, sorted |
| KBest.Sampler.KeptIsBest | A06-DynamicMemory/fcyc.c:67-88 | those values are the only list of the k smallest samples |
| KBest.Sampler.HasConverged | A06-DynamicMemory/fcyc.c:93-98 | true exactly if there are k samples that exceed the least by at most epsilon times it |
| KBest.Sampler.Fcyc | A06-DynamicMemory/fcyc.c:129-168 | reads until k samples agree or there are maxsamples, not one reading more, and answers the least reading |

## Left out

- Reallocation: `mm_realloc` is a stub, and the REALLOC branches of the driver beyond the NULL it returns are not modelled.
- Mm.Allocator.Check: does not model the test for neighbouring free blocks, because its flag is never set in the source (mm.c:301, 308).
- Mm.Allocator.Malloc: requests whose block size wraps around, and extensions that mem_sbrk refuses, are excluded by CanServe; the source gives no answer for them.
- Mm.Allocator.Reserve: an extension that mem_sbrk refuses is excluded likewise.
- Mm.Allocator.Init: a refused first extension is modelled; a memlib whose own malloc fails is not.
- Driver.EvalMmValid: is stated for traces that free only outstanding ids and allocate only others, up to the first request that is turned down; the source relies on that too.
- Driver: parsing trace files, speed measurement, the libc comparison, printing and scoring.
- CheckTrace.Balance: ids are naturals, so ids that differ only in leading zeros are not told apart; Perl's sort order of the keys is left open, any order being allowed.
- Paging: `use_marker` is an unbounded integer; in the source it is an `int` that initialize does not reset, so it overflows once 2^31 pages have been loaded or accessed. `Evaluation.Measure` says how far a measurement moves it.
- Paging.Simulator.Initialize: what the files of pages beyond the frames hold is a parameter, because vm.c:140 scales an `int` pointer by the page size and writes out other ints than those of the page.
- Paging: the shift by OFFSET_BITS (vm.c:167) is a multiplication by the page size, which the source chooses as a power of two.
- Paging: accesses outside the pages in use, the printing of the simulation state, and file errors.
- Sorting: C leaves open which of the two loads of a comparison comes first; here, and so in the sequences of ints touched, one order is fixed.
- Evaluation.Measure: the doubling of lengths, the random data and the printed table are left out.
- Evaluation.CompareFrames: what the files hold is a parameter as in initialize, and it is asked that memory starts out the same in both simulators. With the files that vm.c:140 writes it does not in general, on the pages between the two frame counts, and the two measurements then sort different ints.
- FileExtract.ExtractFile: the remaining byte count is an unbounded integer; it could only wrap for a file size within 2^20 of the least long.
- Directory.SearchDataBlock: a name is compared within its block; a stored name that lacks a terminator and runs past the end of the buffer is not followed.
- Directory.SearchDir: the counter of entries left is an unbounded integer.
- KBest.Sampler.Fcyc: the two loops that differ only in which counter they read are one; clearing the cache and freeing the values are left out.
- Aliasing of pointers into the path after `parse_path`: names are offsets into the array.
- Reading block files, `clock.c`, `ftimer.c`, `fsecs.c`, the shell, `sync.c`, the bit puzzles and the exercises.
