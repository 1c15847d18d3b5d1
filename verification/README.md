# DunkOS kernel: a verified model

DunkOS is a small x86-64 kernel. This project models its core in Dafny and proves what the
code is meant to keep: the containers everything rests on, the allocators, the page tables,
the scheduler with its semaphores, the handshake between a parent and its children, and the
formatted printer. Each module says what an operation means on plain values and proves the
properties of that; the classes and methods beside it hold the code, loop by loop, and are
proved equal to it.

| file | models |
|---|---|
| `bitmap.dfy` | the word-packed bitmap, refining `seq<bool>` |
| `list.dfy` | the doubly linked list with two sentinels, pointer by pointer |
| `hashtable.dfy` | the chained hash table |
| `extents.dfy` | extent allocation over the free map, and its release |
| `pagepool.dfy` | the page pools, and the buffers of bitmaps |
| `requests.dfy` | any number of requests for sectors at the same time |
| `heap.dfy`, `links.dfy`, `heapwords.dfy` | the size-class heap: on sequences, lists on memory words, and the code on memory |
| `pagetable.dfy`, `pagemap.dfy`, `pagecopy.dfy` | page tables as a flat map, the code, and the deep copy |
| `scheduler.dfy` | threads, the ready queue, semaphores and locks |
| `handshake.dfy` | fork, and the wait/exit handshake |
| `format.dfy` | `vsprintf` |
| `queues.dfy`, `option.dfy` | sequences without repetitions; a value that may be missing |

`dafny verify dfyconfig.toml` checks everything.

## Where the source departs from its intent

The model follows the code. Where the code cannot do what it is plainly for, the model holds
both forms, or the repaired one with a lemma about the other.

- `semaphore_dec` tests a copy of the value that it never reads again
  (kern/lib/thr/thread.c:254-261). The parameter `reread` selects; `Scheduling.StaleReturnsIff`
  says exactly when the form in the source returns. `Handshake` has the same parameter: a run
  of the code as written is one of the runs in which a decrement is possible whenever the value
  is positive, so what those keep holds of both forms. `Handshake.ReapedAsWrittenIff` and
  `Handshake.WaitAsWrittenIff` say which processes get on as written: a child that reaches
  `reap_sema` before its parent lets go stays there for good, and so does a `wait` that comes
  before the child has exited.
- The initial thread keeps status zero, which is BLOCKED, and RUNNING is never assigned
  (kern/lib/thr/thread.c:35-36). `Scheduling.BootAsWritten` and `Scheduling.YieldNeedsStatus`.
  Like the code, `yield_current` of the idle thread may queue it; the placement invariant
  covers that.
- `kfree` pushes a block twice unless its arena is retired (kern/lib/mem/heap.c:114, 124).
  The repaired form has one push; `HeapWords.DoublePushUnlessLast` says when the second is
  harmless, and `HeapWords.DoublePushOutcome` what it does otherwise.
- The 8-byte class is smaller than the two links of a free block. Its list is broken from
  the start (`HeapWords.CarvedListIff`), and requests of 1 to 8 bytes hand blocks out twice and
  change other callers' data (`HeapWords.TinyBlockGivenTwice`,
  `HeapWords.TinyRequestOverwrites`), or another arena's header
  (`HeapWords.MagicDestroyedIff`). The results over runs are for runs without them.
- `kmalloc` above 256 KiB returns an uninitialised pointer, and without a free page it writes
  to the null page (kern/lib/mem/heap.c:64-72): the outcomes `Undefined` and `NoPage`.
- `pml4_map_address` tests and writes the wrong level and omits the page-size flag
  (kern/lib/mem/pml4.c:84-90). `PageMaps.MapAsWrittenNeedsDirectory` and
  `PageMaps.MapAsWrittenMakesTable`; the model's mapping is `pml4_map_address_buffer`.
- Page tables from `kcalloc` are not aligned (`Heaps.TablesAreMisaligned`), so the copy as
  written fails for every source with a table (`PageCopies.CopyAsWrittenIff`), and with
  harmless words before its tables for every source with a page
  (`PageCopies.CopyTranslatesNothingIff`). The other results about the copy are for aligned zero tables.
- `pml4_copy` without copy-on-write makes every entry writable: `PageCopies.PlainCopyIsExact`.
  With it the upper entries are read-only for good: `PageCopies.CowPageStaysReadOnly`.
- `page_free` compares a physical address with virtual bases (kern/lib/mem/paging.c:134-141):
  `PagePools.Paging.PageFreeAsWritten` shows that it frees nothing; `PageFree` is the repair,
  which the heap's results about returned pages assume. The pool's map has one bit too many
  (`PagePools.LeavesPoolIff`); for the kernel pool the page behind it holds the user pool's map
  (`TwoPools.UserMapLostIff`, `TwoPools.UserPoolIsDead`).
- The memory of a pool's map is not cleared (kern/lib/util/bitmap.c:40-48), so pages can be lost
  from the start: `PagePools.NewPoolIsGood`. The number of pages that the map takes is computed
  from `p->pages` before that is set (kern/lib/mem/paging.c:162), and is one, because a pool is
  static data and `page_round_up` adds a page to zero.
- A bitmap's buffer is counted in bytes and accessed in words: `BitmapBuffers`.
- `fs_free_sectors` is documented and never assigned (kern/lib/io/filesys.c:13). The model
  uses the number of free sectors; `Extents.LoopFinishes` says why the guard needs it. The
  guard admits requests one by one and drops the lock: `Requests.AllPlacedIff`.
- `inode_disk_allocate_space` releases its lock twice on success; the lock's value is part of
  the model. Extents are recorded with 32-bit fields: `Extents.CutExtentFreesRoot`.
- `inode_disk_insert_extent` is empty (kern/lib/io/filesys.c:223-226); it is modelled as append.
  The functions on the free map are passed the address of the pointer to it; the model passes
  the map.
- `hashtable_remove` never decrements `entries`: the parameter `counting`, and
  `HashTables.EntriesIsSize`.
- `fork` forks twice and returns the process it never starts (kern/lib/thr/syscall.c:49-62):
  `Handshake.WaitForForkResultNeverReturns`. `process_init` leaves both semaphores and the child
  list as zeroed memory, which `Lists.List.Zeroed` shows to be a good empty list.
- After releasing a child, `wait` and `exit_process` read its list element to go on
  (kern/lib/thr/syscall.c:89-100, kern/lib/thr/process.c:143-148), by when it may be gone:
  `Handshake.ReadTouchesGoneIff`.
- `read_format` has no case for `%d`, never parses a width, and lets the flag `0` fall through
  to `-`, after which `write_int` writes nothing. The members of the record that the defaults
  leave alone carry over from one conversion to the next, and from the stack to the first.

## Model

| member | source | states |
|---|---|---|
| `Bits.FirstRunIsScan` | kern/lib/util/bitmap.c:81-99 | the scan's value is the least start at or after the given one whose whole run matches, or NPOS when there is none |
| `Bits.ScanIsUnique` | kern/lib/util/bitmap.c:81-99 | only one value has that property |
| `Bits.Mismatch` | kern/lib/util/bitmap.c:81-99 | a run that breaks off after m matching bits rules out every start up to the break, which is why the scan may skip them |
| `Words.MaskedUpdate` | kern/lib/util/bitmap.c:60-79 | or, and-not and exclusive-or of a 64-bit word with the mask of bit j change bit j as intended and no other bit |
| `Words.MaskedTest` | kern/lib/util/bitmap.c:55-58 | the masked word is nonzero exactly when the bit is set |
| `Bitmaps.PokeWord` | kern/lib/util/bitmap.c:18-26 | replacing the word of bit i by one that differs only there changes exactly bit i of the map |
| `Bitmaps.Bitmap.constructor` | kern/lib/util/bitmap.c:28-38 | a new bitmap is all clear |
| `Bitmaps.Bitmap.FromBuffer` | kern/lib/util/bitmap.c:40-48 | a bitmap in a given buffer has the bits that lie there |
| `Bitmaps.Bitmap.Test` | kern/lib/util/bitmap.c:55-58 | reads the bit of the map, through word index and mask |
| `Bitmaps.Bitmap.Set` | kern/lib/util/bitmap.c:60-70 | exactly the bits of the range inside the map get the value |
| `Bitmaps.Bitmap.FlipRange` | kern/lib/util/bitmap.c:72-79 | exactly the bits of the range inside the map are inverted |
| `Bitmaps.Bitmap.MatchLength` | kern/lib/util/bitmap.c:81-99 | the inner loop measures the matching run up to the first mismatch, the end of the map or the wanted length, and calls the test once for each bit it looks at |
| `Bitmaps.Bitmap.Scan` | kern/lib/util/bitmap.c:81-99 | the skipping scan finds the first run, with at most 2·(bitcount − start) calls of the bit test |
| `Bitmaps.Bitmap.ScanAndFlip` | kern/lib/util/bitmap.c:101-107 | changes exactly the run found, and nothing when there is none |
| `Bitmaps.Bitmap.All` | kern/lib/util/bitmap.c:109-112 | true exactly when the whole run lies in the map and matches, and also for a start of NPOS |
| `BitmapBuffers.BufferCoversWords` | kern/lib/include/kern/util/bitmap.h:20-23 | the byte count covers the words that are accessed exactly when the last word is full or its last byte is used |
| `BitmapBuffers.BlockCoversWords` | kern/lib/util/bitmap.c:28-38 | the heap block of a bitmap from `bitmap_create` covers the last word for every size all the same |
| `Extents.BestAttemptIsBest` | kern/lib/io/filesys.c:236-241 | the inner loop stops at the longest request that some free run can serve |
| `Extents.RoundProgress` | kern/lib/io/filesys.c:236-250 | a round with something to place and something free takes between one sector and the rest, all of them free |
| `Extents.RoundIsLongest` | kern/lib/io/filesys.c:236-250 | no free run is longer than the one a round took that could not serve the whole rest |
| `Extents.TouchingRunIsInside` | kern/lib/io/filesys.c:236-250 | a free run that touches such a round's extent lies inside it |
| `Extents.ExchangeStep` | kern/lib/io/filesys.c:236-250 | a round's extent can stand in for one member of any family of free runs, and the others still cover the rest |
| `Extents.GreedyIsOptimal` | kern/lib/io/filesys.c:236-250 | no family of free runs covering the request has fewer members than the loop produces, whatever the initial map |
| `Extents.NonIncreasing` | kern/lib/io/filesys.c:236-250 | extent lengths never increase from one round to a later one |
| `Extents.RoundIsFirst` | kern/lib/io/filesys.c:238-241 | a round's extent starts at the least place where a run of its length is free, and no longer run that the rest allows is free anywhere |
| `Extents.GreedyIsFirstLongest` | kern/lib/io/filesys.c:236-250 | each extent of a request is the first longest free run, up to the rest, of the map that the earlier ones left |
| `Extents.FirstLongestIsUnique` | kern/lib/io/filesys.c:236-250 | and only one list of extents is like that |
| `Extents.GreedyServed` | kern/lib/io/filesys.c:236-250 | every extent is taken from free sectors and together they have exactly the requested number |
| `Extents.ServedIsDisjoint` | kern/lib/io/filesys.c:236-250 | the extents are free runs of the initial map, pairwise disjoint, and exactly their sectors stop being free |
| `Extents.ShortageIsConstant` | kern/lib/io/filesys.c:236-250 | sectors still wanted minus sectors still free is the same after every number of rounds |
| `Extents.LoopFinishes` | kern/lib/io/filesys.c:228-254 | the outer loop ends exactly for requests not above the number of free sectors, so the guard needs a true free count |
| `Extents.HeaderSuffices` | kern/lib/io/filesys.c:32-46 | a request fits a given number of header slots exactly when some choice of disjoint free runs does |
| `Extents.UndoFirst` | kern/lib/io/filesys.c:303-309 | giving back an extent that was taken first undoes that step alone, under everything taken later |
| `Extents.ReleaseRestores` | kern/lib/io/filesys.c:379-390 | releasing the extents in order passes every check and restores the map |
| `Extents.ReleaseIff` | kern/lib/io/filesys.c:379-390 | the walk passes every check exactly when the extents are allocated throughout and share no sector, and then clears their sectors and no others |
| `Extents.StoredExactly` | kern/lib/io/filesys.c:243-246 | on volumes of up to 2^32 sectors the 32-bit fields of the recorded extents lose nothing |
| `Extents.AllocateThenFree` | kern/lib/io/filesys.c:228-254 | on volumes of up to 2^32 sectors, allocating and then freeing what the inode recorded restores the free map |
| `Extents.AllocateThenFreeIff` | kern/lib/io/filesys.c:228-254 | on every volume, exactly when every extent's start and length fit the record's 32-bit members |
| `Extents.CutExtentFreesRoot` | kern/lib/io/filesys.c:243-246 | on every larger volume: with only sector 2^32 free, a request is recorded as the root directory's sector, and freeing the file frees the root |
| `Extents.LargerVolumesFail` | kern/lib/io/filesys.c:243-246 | so for every larger volume some map and some request are not restored |
| `FileSystem.FreeMap.Allocate` | kern/lib/io/filesys.c:293-301 | allocates exactly the first run of the length, or nothing |
| `FileSystem.FreeMap.ReleaseExtent` | kern/lib/io/filesys.c:303-309 | clears a run that is wholly allocated and fails for any other |
| `FileSystem.FreeMap.AllocateBest` | kern/lib/io/filesys.c:236-241 | the loop that counts down takes the longest run the rest allows, at the least start |
| `FileSystem.FreeMap.PlaceAll` | kern/lib/io/filesys.c:236-250 | the nested loops of one request, with nobody in between, record and take exactly the greedy extents |
| `FileSystem.FreeMap.AllocateSpace` | kern/lib/io/filesys.c:228-254 | for one request alone: success exactly within the free count, and then each extent recorded is the first longest run in what the earlier ones left; on failure nothing changes; a success leaves the lock one too high |
| `FileSystem.FreeMap.FreeData` | kern/lib/io/filesys.c:387-390 | walks the recorded extents and succeeds exactly when they are allocated throughout and share no sector, with the map the releases give |
| `FileSystem.FreeBelowSize` | kern/lib/io/filesys.c:278-291 | with the root's sector taken, a request that fits is below the map size, so the assertion in `free_map_allocate` holds |
| `Requests.TurnKeeps` | kern/lib/io/filesys.c:234-250 | while any number of admitted requests interleave attempt by attempt, what they want together beyond what is free does not change |
| `Requests.AttemptIsFirst` | kern/lib/io/filesys.c:236-241 | an attempt takes the first free run of the length it tries, or tries one sector less if there is none |
| `Requests.AllArePlaced` | kern/lib/io/filesys.c:234-250 | if together they fit, every schedule with enough turns for each places all |
| `Requests.NeverAllPlaced` | kern/lib/io/filesys.c:234-250 | if together they do not fit, although each did when it was admitted, no schedule places all |
| `Requests.AllPlacedIff` | kern/lib/io/filesys.c:231-250 | so admitted requests can all be placed exactly when their sum is within the free count |
| `PageTables.WalkStaysInside` | kern/lib/mem/pml4.c:51-71 | every walk through nonzero entries stays in the tree's tables |
| `PageTables.NoSharing` | kern/lib/mem/pml4.c:51-71 | no table is reachable by two paths |
| `PageTables.HardwareFindsLeaf` | kern/lib/mem/pml4.c:51-71 | the processor's walk, which tests every present bit and combines the writable bits, finds exactly the leaf entries marked present, and allows writing exactly where every entry of the path does |
| `PageTables.EnsureKeepsTree` | kern/lib/mem/pml4.c:55-67 | adding an empty table keeps the tree and adds exactly one path to it |
| `PageTables.EnsureKeepsLeaves` | kern/lib/mem/pml4.c:55-67 | and changes no leaf entry at any path |
| `PageTables.WriteChangesOneLeaf` | kern/lib/mem/pml4.c:69-70 | writing a directory entry changes the leaf of exactly one path |
| `PageTables.PathIsVpn` | kern/lib/mem/pml4.c:53-69 | the three masked and shifted indices are the base-512 digits of the 27-bit page number |
| `PageTables.PathsTellPages` | kern/lib/mem/pml4.c:53-69 | two addresses have the same path exactly when they lie in the same 2 MiB page |
| `PageTables.DirectoryPath` | kern/lib/mem/pml4.c:61-62 | two addresses share a directory exactly when they lie in the same gigabyte |
| `PageTables.MapIsFlatUpdate` | kern/lib/mem/pml4.c:51-71 | a mapping gives exactly its page the new entry, changes no other translation, and keeps the tree |
| `PageTables.UpdateIsFlatUpdate` | kern/lib/mem/pml4.c:93-129 | so does writing an entry through `pml4_compute_ptloc` where the directory exists |
| `PageTables.RunIsFlat` | kern/lib/mem/pml4.c:51-129 | over every run of mappings, clears and flag changes the tables agree with a flat map from page number to entry |
| `PageTables.LastOneDecides` | kern/lib/mem/pml4.c:51-129 | on that flat map the last operation on a page decides: zero after a clear; the frame with exactly present, writable and page-size after a mapping; the flag as asked, all else as before, after a flag change |
| `PageTables.ClearLeavesNothing` | kern/lib/mem/pml4.c:104-107 | after a clear the entry is zero and the processor finds nothing at that page |
| `PageTables.FlagChangesFlag` | kern/lib/mem/pml4.c:109-129 | after a flag change that flag is as asked, and the frame and every other flag as before |
| `PageTables.MapLeavesPage` | kern/lib/mem/pml4.c:51-71 | after a mapping of an aligned frame the processor finds that frame with exactly present, writable and page-size; new tables are present and writable, and the page can be written unless an older table forbids it |
| `PageTables.DirectoriesComeFromMappings` | kern/lib/mem/pml4.c:93-107 | after a run a directory exists exactly when it did before or some page of its gigabyte was mapped, which is where clearing is safe |
| `PageTables.MapTakes` | kern/lib/mem/pml4.c:51-71 | a mapping takes one pool table for each missing level, and afterwards exactly the tables of its path exist besides those before |
| `PageTables.ListTranslates` | kern/lib/mem/paging.c:81-86 | after a list of mappings a page mapped by one of them translates through that mapping |
| `PageTables.ListTakes` | kern/lib/mem/paging.c:81-86 | a list takes at most two tables and one more for each change of directory or pointer table |
| `PageTables.ConsecutiveChanges` | kern/lib/mem/paging.c:81-86 | consecutive pages change directory once per 512 pages and pointer table once per 262144 |
| `PageTables.ListBound` | kern/lib/mem/paging.c:81-86 | mapping n consecutive 2 MiB pages takes at most n/512 + n/262144 + 4 tables from the pool |
| `PageTables.KernelRangeTranslates` | kern/lib/mem/paging.c:81-86 | after the boot loop every address of the range translates to its physical address |
| `PageTables.KernelRangeBound` | kern/lib/mem/paging.c:81-86 | and the loop stays within the table bound |
| `PageTables.BootPoolSuffices` | kern/lib/mem/paging.c:71-86 | with 4 GiB of memory and the first 8 MiB reserved the loop takes at most 7 tables |
| `PageMaps.PageMap.Descend` | kern/lib/mem/pml4.c:55-60 | a missing table comes from the pool, zeroed, and an existing one is kept |
| `PageMaps.PageMap.MapAddressBuffer` | kern/lib/mem/pml4.c:51-71 | the code performs the mapping of the specification and keeps the tree |
| `PageMaps.PageMap.Directory` | kern/lib/mem/pml4.c:93-101 | the walk of `pml4_compute_ptloc` ends in the directory of the address |
| `PageMaps.PageMap.ClearMapping` | kern/lib/mem/pml4.c:104-107 | makes the entry of exactly that page zero |
| `PageMaps.PageMap.SetFlagOf` | kern/lib/mem/pml4.c:109-129 | sets or clears one flag of exactly that page's entry |
| `PageMaps.PageMap.GetFlag` | kern/lib/mem/pml4.c:131-154 | reads the flag of that page's entry |
| `PageMaps.PageMap.MapKernel` | kern/lib/mem/paging.c:81-86 | the loop performs the list of kernel mappings |
| `PageMaps.MapAsWrittenNeedsDirectory` | kern/lib/mem/pml4.c:73-91 | the `kcalloc` variant as written is safe exactly when the directory already exists, and the entry it writes is no 2 MiB page |
| `PageMaps.MapAsWrittenMakesTable` | kern/lib/mem/pml4.c:89-90 | so the processor goes on and takes the page that was to be mapped for a table: which 4 KiB page an address gets is read from that page's own words |
| `PageMaps.PageMap.CopyTable` | kern/lib/mem/pml4.c:156-174 | the recursive copy performs the copy of the specification; it terminates on the level |
| `PageCopies.CopyWorks` | kern/lib/mem/pml4.c:156-174 | from every level and entry on, the copied part is a tree of fresh tables with the source's leaves up to the writable flag (tables aligned) |
| `PageCopies.SourceUnchanged` | kern/lib/mem/pml4.c:156-179 | the source keeps its tree and every leaf entry |
| `PageCopies.CopyFinds` | kern/lib/mem/pml4.c:156-179 | the copy has the source's leaf entry at every path, with only the writable flag rewritten |
| `PageCopies.CopyIsTree` | kern/lib/mem/pml4.c:156-179 | the copy is a tree that shares no table with the source |
| `PageCopies.EveryEntryIsCopied` | kern/lib/mem/pml4.c:156-174 | under copy-on-write no entry of any copied table is writable, upper levels included; otherwise every entry that is not empty is |
| `PageCopies.CopyTranslates` | kern/lib/mem/pml4.c:156-179 | for every address the processor finds the same frame and flags except writable; it may write nowhere under copy-on-write, and everywhere otherwise (tables aligned) |
| `PageCopies.CopyKeepsFrames` | kern/lib/mem/pml4.c:156-174 | written out by bit number: the copy's page has the source's frame and flags, but is writable exactly without copy-on-write |
| `PageCopies.UpperFlagsAsAsked` | kern/lib/mem/pml4.c:162-168 | and so are the flags of the entries that lead to the copied tables |
| `PageCopies.PlainCopyIsExact` | kern/lib/mem/pml4.c:156-179 | without copy-on-write a translation with its rights is copied exactly when it is missing or every entry of the source's path is writable |
| `PageCopies.CowPageStaysReadOnly` | kern/lib/mem/pml4.c:109-119 | in a copy-on-write copy, setting the flags of a page's own entry does not make the page writable |
| `PageCopies.SkewedCopyFails` | kern/lib/mem/pml4.c:162-168 | with the tables where `kcalloc` puts them, three entries late, a source with any table has an address that translates wrongly for some neighbouring words |
| `PageCopies.CopyAsWrittenIff` | kern/lib/mem/pml4.c:156-179 | so the copy as written preserves every translation, whatever lies before its tables, exactly when the source has no table |
| `PageCopies.CopyIsRead` | kern/lib/mem/pml4.c:162-168 | where no word before the tables is marked present, the copy as written reads every address below the root three entries early at each level |
| `PageCopies.CopyTranslatesNothingIff` | kern/lib/mem/pml4.c:156-179 | so for every such choice of those words it preserves all translations exactly when the source maps no page |
| `PagePools.PagePool.constructor` | kern/lib/mem/paging.c:160-171 | the map takes one page and has one bit for every page given, its own included; its bits are whatever lies in that page |
| `PagePools.NewPoolIsGood` | kern/lib/mem/paging.c:160-171 | a new pool satisfies the invariant whatever lay there: bits that are set count as pages held, and the free ones and those together are all |
| `PagePools.PagePool.Alloc` | kern/lib/mem/paging.c:173-190 | hands out the first free run of pages and marks exactly that run, or returns null; says when the run ends outside the pool |
| `PagePools.PagePool.Free` | kern/lib/mem/paging.c:199-203 | clears the run at the wrapped 64-bit page number |
| `PagePools.PagePool.Reserve` | kern/lib/mem/paging.c:192-197 | marks the page if it was free and fails otherwise |
| `PagePools.LeavesPoolIff` | kern/lib/mem/paging.c:160-190 | an allocation ends outside the pool exactly when no run of the pool's own pages is free and a run that ends with the bit too many is |
| `PagePools.FullPoolGivesOneMore` | kern/lib/mem/paging.c:160-190 | a pool whose pages are all taken gives out the page behind it, once |
| `TwoPools.UserMapLostIff` | kern/lib/mem/paging.c:88-113 | a request for zeroed kernel pages wipes out the user pool's map exactly when it leaves the kernel pool |
| `TwoPools.UserPoolIsDead` | kern/lib/mem/paging.c:173-190 | after that every request for user pages fails, whatever either pool does in between |
| `TwoPools.FullKernelPoolKillsUserPool` | kern/lib/mem/paging.c:88-121 | with the kernel pool's pages all taken, one request for a zeroed kernel page is enough |
| `TwoPools.UserPagesAreFirst` | kern/lib/mem/paging.c:88-113 | a request for user pages gets the first free run of the user pool, in the pages behind its map |
| `PagePools.AllocatedRunsAreDisjoint` | kern/lib/mem/paging.c:173-190 | an allocation never overlaps a run that is marked |
| `PagePools.FreeUndoesAlloc` | kern/lib/mem/paging.c:199-203 | freeing the run just allocated restores the map |
| `PagePools.RunKeeps` | kern/lib/mem/paging.c:123-203 | over every run of allocations, reservations, and returns of whole runs or of single pages, held pages are pairwise disjoint and are exactly the marked ones |
| `PagePools.PagesAreConserved` | kern/lib/mem/paging.c:123-203 | over every such run free pages plus held pages is the number of pages |
| `PagePools.Paging.PageFreeAsWritten` | kern/lib/mem/paging.c:134-141 | as written no page is ever freed: the physical address is compared with virtual bases |
| `PagePools.Paging.PageFree` | kern/lib/mem/paging.c:134-141 | with the page's own address exactly its bit in its pool is cleared |
| `Heaps.BlockInPage` | kern/lib/include/shared/heapstruct.h:39-42 | every block lies in its page behind the arena header |
| `Heaps.ArenaOfBlock` | kern/lib/include/shared/heapstruct.h:34-42 | `block_get_arena` undoes `arena_get_block` for every valid index |
| `Heaps.BlocksApart` | kern/lib/include/shared/heapstruct.h:39-42 | two blocks of an arena do not overlap |
| `Heaps.BlockCount` | kern/lib/mem/heap.c:76-79 | the carving loop lists every block of the arena once |
| `Heaps.FirstClassFits` | kern/lib/mem/heap.c:59-64 | the class chosen is the smallest that is large enough; there is none exactly above 256 KiB |
| `Heaps.KmallocKeeps` | kern/lib/mem/heap.c:50-94 | for requests that are 0 or above 8 bytes `kmalloc` keeps the invariant, gives out a block that was not outstanding, changes no other block's standing, and conserves pages; which outcome happens when |
| `Heaps.KmallocTakesFirst` | kern/lib/mem/heap.c:64-88 | free blocks are handed out in the order in which they became free; a new page gives its first block, and its others follow in address order |
| `Heaps.KfreeQueuesLast` | kern/lib/mem/heap.c:104-114 | a block that is freed, and is not the last one outstanding of its page, goes behind the free ones |
| `Heaps.KfreeKeeps` | kern/lib/mem/heap.c:104-128 | `kfree` with one push keeps the invariant |
| `Heaps.RunKeeps` | kern/lib/mem/heap.c:50-128 | over every run without requests of 1 to 8 bytes the invariant holds: free counts are the listed blocks, no live arena is all free, pages of pool and arenas are conserved |
| `Heaps.LiveBlocksAreApart` | kern/lib/mem/heap.c:50-128 | outstanding blocks are large enough, inside their page, and disjoint from each other, from all free blocks and from all arena headers |
| `Heaps.LastBlock` | kern/lib/mem/heap.c:112-119 | an arena becomes all free exactly when its last outstanding block is freed |
| `Heaps.PageReturnedWithLast` | kern/lib/mem/heap.c:112-123 | a page is given to `page_free` exactly when the last outstanding block on it is freed |
| `Heaps.ArenasBoundedByBlocks` | kern/lib/mem/heap.c:71-88 | live arenas of a class never outnumber that class's outstanding blocks |
| `Heaps.FreeUndoesMalloc` | kern/lib/mem/heap.c:50-128 | freeing what was just given out, for requests above 8 bytes, restores arenas, pool, outstanding blocks and the members of every free list |
| `Heaps.LinksHitNeighbour` | kern/lib/include/shared/heapstruct.h:30-42 | the links of a block overlap another block of its arena exactly in the 8-byte class and exactly the next one, and the next page's header exactly from the last one |
| `Heaps.TablesAreMisaligned` | kern/lib/mem/pml4.c:33-36 | a page table from `kcalloc` starts 24 bytes behind a multiple of its size |
| `Links.PushBackIs` | kern/lib/shared/list.c:17-35 | on memory words, pushing a node that shares no word with the list appends it |
| `Links.DetachIs` | kern/lib/shared/list.c:76-106 | joining the links around a member takes exactly it out |
| `Links.DoubledIsNoList` | kern/lib/shared/list.c:17-35 | pushing a member a second time leaves links and a size that are no list |
| `Links.DoubledGivesSentinel` | kern/lib/shared/list.c:76-93 | popping such a list gives its members, the node once, and then the tail sentinel as a node |
| `Links.DoubledStaysInFront` | kern/lib/shared/list.c:76-93 | if it was empty before, popping gives the node and leaves it in front |
| `Links.RemoveFromOtherIff` | kern/lib/thr/thread.c:145-153 | removing from one list a member of another keeps both exactly when the first is empty; so `thread_block` of a waiting thread is safe exactly when no thread is ready |
| `HeapWords.TakenHolds` | kern/lib/mem/heap.c:83-88 | on memory, taking the front block of a class does what the heap of sequences does: links, zeroed block, free count, and every other list and header untouched |
| `HeapWords.NewArenaHolds` | kern/lib/mem/heap.c:71-80 | so does carving a page |
| `HeapWords.CountedHolds` | kern/lib/mem/heap.c:104-112 | so does pushing a block back and counting it |
| `HeapWords.RetireHolds` | kern/lib/mem/heap.c:112-120 | and unlinking every block of an arena |
| `HeapWords.AllocRefines` | kern/lib/mem/heap.c:50-94 | `kmalloc` on memory refines the heap of sequences for every request that is 0 or above 8 bytes |
| `HeapWords.ReleaseRefines` | kern/lib/mem/heap.c:104-128 | `kfree` on memory, with one push, refines it |
| `HeapWords.RunRefines` | kern/lib/mem/heap.c:50-128 | over every run without requests of 1 to 8 bytes, with any stores into outstanding blocks, memory holds a heap that satisfies the invariant |
| `HeapWords.DataSurvives` | kern/lib/mem/heap.c:50-128 | over every such run a block keeps what its owner stored, whatever others request, return and store |
| `HeapWords.FreshBlockStaysZero` | kern/lib/mem/heap.c:83-84 | a block is zero on return and stays so until its owner stores into it |
| `HeapWords.CarvedListIff` | kern/lib/mem/heap.c:76-79 | the list that carving makes is the sequence of the arena's blocks exactly when a block has room for its two links |
| `HeapWords.TinyBlockGivenTwice` | kern/lib/mem/heap.c:50-128 | from every good heap with a page left: after two requests for 8 bytes and one return, a third and a fourth request get the same block |
| `HeapWords.TinyRequestOverwrites` | kern/lib/mem/heap.c:50-128 | and after a store into that block the next request for 8 bytes changes a word of any other outstanding block |
| `HeapWords.TinyAllocWrites` | kern/lib/mem/heap.c:71-88 | outside the page it carves, the first request for 8 bytes writes the list and the first word of the next page, and nothing else |
| `HeapWords.MagicDestroyedIff` | kern/lib/mem/heap.c:71-80 | so it destroys another arena's magic word exactly when the page behind the carved one is an arena |
| `HeapWords.DoublePushUnlessLast` | kern/lib/mem/heap.c:114-125 | with both pushes of the source, memory still holds a good heap exactly when the freed block was its arena's last |
| `HeapWords.DoublePushOutcome` | kern/lib/mem/heap.c:114-125 | otherwise, from a list that was not empty, popping gives its blocks, the freed block and then the list's own tail sentinel; from an empty one it gives the freed block and keeps it in front |
| `KernelHeaps.KernelHeap.constructor` | kern/lib/mem/heap.c:36-48 | whatever memory held before, every free list is linked and empty and there is no arena |
| `KernelHeaps.KernelHeap.ListPushBack` | kern/lib/shared/list.c:17-35 | the pointer writes of `list_push_back`, one by one |
| `KernelHeaps.KernelHeap.JoinAround` | kern/lib/shared/list.c:76-106 | the pointer writes that pop and remove share |
| `KernelHeaps.KernelHeap.ListRemove` | kern/lib/shared/list.c:95-106 | nothing on an empty list, and otherwise those writes |
| `KernelHeaps.KernelHeap.Malloc` | kern/lib/mem/heap.c:50-94 | the code, for every request, computes the machine state and the outcome |
| `KernelHeaps.KernelHeap.ClassFor` | kern/lib/mem/heap.c:59-62 | the search loop finds the first class that fits |
| `KernelHeaps.KernelHeap.PopFirst` | kern/lib/mem/heap.c:83-88 | the head of the list is unlinked, zeroed and counted |
| `KernelHeaps.KernelHeap.CarveArena` | kern/lib/mem/heap.c:71-80 | the loop writes the header and pushes every block of the page |
| `KernelHeaps.KernelHeap.RetireArena` | kern/lib/mem/heap.c:115-120 | the loop removes every block of the arena from the list |
| `KernelHeaps.KernelHeap.Free` | kern/lib/mem/heap.c:104-128 | the code, with one push or with both |
| `Scheduling.StepKeeps` | kern/lib/thr/thread.c:110-263 | every interrupts-off step keeps the placement invariant |
| `Scheduling.RunKeeps` | kern/lib/thr/thread.c:110-263 | over every interleaving, whichever way the semaphore value is tested |
| `Scheduling.OnePlace` | kern/lib/thr/thread.c:110-263 | each live thread is in exactly one place, once, and its status matches: running, ready queue, idle, one semaphore's waiters, or parked |
| `Scheduling.SamePlace` | kern/lib/thr/thread.c:110-263 | so `status_elem` is never on two lists |
| `Scheduling.BootIsGood` | kern/lib/thr/thread.c:27-42 | with the initial thread not BLOCKED the state after `init_threads` is a good start |
| `Scheduling.YieldNeedsStatus` | kern/lib/thr/thread.c:119-127 | yielding keeps the running thread schedulable exactly when its status is not BLOCKED |
| `Scheduling.BootAsWritten` | kern/lib/thr/thread.c:27-42 | as written the initial thread is BLOCKED and its first yield drops it from every queue |
| `Scheduling.RunKeepsWakeUps` | kern/lib/thr/thread.c:230-263 | with the value re-read, threads woken and not yet re-tested always cover the value while there are waiters |
| `Scheduling.UnitHasTaker` | kern/lib/thr/thread.c:230-263 | a positive value with waiters means that some thread is on its way to take a unit |
| `Scheduling.UnitHasRunnableTaker` | kern/lib/thr/thread.c:230-263 | over every run without `thread_block` on others that thread can run: no wake-up is lost |
| `Scheduling.StaleNeverReturns` | kern/lib/thr/thread.c:247-263 | as written, a thread that found the value at zero never leaves `semaphore_dec` |
| `Scheduling.StaleReturnsIff` | kern/lib/thr/thread.c:247-263 | so it returns exactly when the value was positive on entry |
| `Scheduling.UnitsAreConserved` | kern/lib/thr/thread.c:230-263 | value plus completed decrements is initial value plus increments, over every run |
| `Scheduling.MutualExclusion` | kern/lib/thr/thread.c:265-281 | lock value plus number of holders is always 1 over every run in which only holders release |
| `Scheduling.MovesUp` | kern/lib/thr/thread.c:110-166 | a thread at position k of the ready queue moves up one place at each switch and does not run before its turn |
| `Scheduling.RunsAtItsTurn` | kern/lib/thr/thread.c:110-196 | it runs at exactly the (k+1)-th switch, unless it or a thread ahead of it is removed by `thread_block` |
| `Scheduling.WaitsBehind` | kern/lib/thr/thread.c:256-259 | a thread that finds the value at zero is BLOCKED and waits behind all who already wait |
| `Scheduling.WaiterMovesUp` | kern/lib/thr/thread.c:230-263 | a thread at position k of a semaphore's waiters moves up at each increment of that semaphore and at nothing else |
| `Scheduling.WokenAtItsTurn` | kern/lib/thr/thread.c:230-245 | the (k+1)-th increment makes exactly that thread ready, behind all who are, and it waits no more |
| `Scheduling.JoinsTheQueue` | kern/lib/thr/thread.c:52-69 | a thread that is created, or unblocked, is READY at the end of the queue |
| `Scheduling.YieldsToAll` | kern/lib/thr/thread.c:119-127 | a thread that yields goes behind all who are ready, and the first of them runs |
| `Scheduling.BlockedIsParked` | kern/lib/thr/thread.c:129-153 | a thread that is blocked, by itself or by another, is BLOCKED and in no queue |
| `Scheduling.StaysParked` | kern/lib/thr/thread.c:145-166 | and stays there over every run until it is unblocked |
| `Scheduling.DeadForGood` | kern/lib/thr/thread.c:198-203 | a thread that has exited is DEAD, off the processor and out of the queue for good |
| `Kernels.Kernel.constructor` | kern/lib/thr/thread.c:27-42 | the state after `init_threads`, with the initial status as a parameter |
| `Kernels.Kernel.NextThread` | kern/lib/thr/thread.c:110-117 | pops the head of the ready queue, or gives the idle thread |
| `Kernels.Kernel.Schedule` | kern/lib/thr/thread.c:186-196 | the next thread runs |
| `Kernels.Kernel.Yield` | kern/lib/thr/thread.c:119-127 | requeues the running thread unless it is BLOCKED, then switches |
| `Kernels.Kernel.BlockRunning` | kern/lib/thr/thread.c:129-134 | marks the running thread BLOCKED and switches |
| `Kernels.Kernel.BlockThread` | kern/lib/thr/thread.c:145-153 | blocks the running thread, or takes another off the ready queue |
| `Kernels.Kernel.UnblockThread` | kern/lib/thr/thread.c:155-166 | queues the thread unless it is idle, and marks it READY |
| `Kernels.Kernel.Create` | kern/lib/thr/thread.c:52-69 | a new thread is made ready |
| `Kernels.Kernel.Exit` | kern/lib/thr/thread.c:198-203 | the running thread is DEAD and in no queue |
| `Kernels.Kernel.SemaphoreIncrement` | kern/lib/thr/thread.c:230-245 | adds a unit and makes the first waiter ready |
| `Kernels.Kernel.SemaphoreDecrement` | kern/lib/thr/thread.c:247-263 | takes a unit, or queues up and switches |
| `Kernels.Kernel.SemaphoreDecrementResumed` | kern/lib/thr/thread.c:254-261 | the woken thread's next test, with the stale copy or with the value read again |
| `Handshake.StepKeeps` | kern/lib/thr/syscall.c:83-105 | every step of `fork`, `wait` and `exit_process` keeps the bond between each process and its parent |
| `Handshake.RunKeeps` | kern/lib/thr/process.c:136-158 | over every interleaving and every tree of processes, in either form |
| `Handshake.ReleasedAtMostOnce` | kern/lib/thr/process.c:142-150 | in no run, of either form, is `reap_sema` of a process incremented more than once |
| `Handshake.WaitReturnsTheExitOnce` | kern/lib/thr/syscall.c:83-105 | in every run, of either form, a process exits at most once, and what `wait` returns for it is that status, at most once |
| `Handshake.ReapedIffLetGo` | kern/lib/thr/process.c:154-155 | a child at `reap_sema` can go on exactly when its parent has collected its status or passed it in its own exit, and, as written, it has not found zero before |
| `Handshake.StaysReapable` | kern/lib/thr/process.c:154-155 | once it can go on, in either form, nothing that happens meanwhile takes that away |
| `Handshake.GoneWasLetGo` | kern/lib/thr/process.c:136-158 | a child that is gone was collected with its exit code or passed by its parent's exit |
| `Handshake.OrphanOfNobodyIsNotReaped` | kern/lib/thr/process.c:154-155 | a process that nobody forked is never let past `reap_sema` |
| `Handshake.WaitPassesIffAnnounced` | kern/lib/thr/syscall.c:96-97 | `wait` gets past its decrement exactly when the child has announced its exit, and, as written, it has not found zero before |
| `Handshake.TargetIsThere` | kern/lib/thr/syscall.c:96-99 | up to its release a child is not gone, and `wait` reads the code of one that has exited |
| `Handshake.ReadTouchesGoneIff` | kern/lib/thr/process.c:143-150 | the loop headers of `exit_process` and `wait` then read the released child's list element; however late, the child is gone by then exactly when it took its reap in the meantime |
| `Handshake.ReapCanComeFirst` | kern/lib/thr/syscall.c:89-100 | a child that waits for its reap may take it before that read, unless, as written, it has found zero before |
| `Handshake.ReapedAsWrittenIff` | kern/lib/thr/process.c:153-156 | as written, over every run, a child gets past `reap_sema` exactly when its parent had let go of it when it made its first test |
| `Handshake.WaitAsWrittenIff` | kern/lib/thr/syscall.c:96-97 | as written, over every run, `wait` gets past its decrement exactly when the child had announced its exit at the first test |
| `Handshake.EnabledIffNotStuck` | kern/lib/thr/process.c:136-158 | in either form a process cannot take its next step exactly when it was never made ready, is gone, or has found zero: as written for good, and otherwise until the child exits or the parent lets go |
| `Handshake.WaitForForkResultNeverReturns` | kern/lib/thr/syscall.c:49-62 | `fork` returns its second child, which is never made ready, so a later `wait` for that value blocks for good in every run |
| `Handshake.ForkStartsFirst` | kern/lib/thr/syscall.c:49-62 | the first child of `fork` can exit, wait and fork at once; the second can take no step |
| `Handshake.ForkAddsTwo` | kern/lib/thr/syscall.c:49-62 | both are new children of the caller, with both semaphores at 0, and nobody else changes |
| `ProcessTables.ForkExitWait` | kern/lib/thr/syscall.c:49-105 | from every good state, as written: a process forks, the child exits, a `wait` returns its status and the child is gone |
| `ProcessTables.CollectRuns` | kern/lib/thr/syscall.c:83-105 | what the steps of one `wait` that finds an exited child do together, as written |
| `ProcessTables.ExitReleasesChildren` | kern/lib/thr/process.c:142-150 | a process past the exit loop has released each child on its list once |
| `ProcessTables.ProcessTable.ForkProcess` | kern/lib/thr/process.c:37-54 | the child goes on the parent's list, not ready, with both semaphores at 0 |
| `ProcessTables.ProcessTable.ForkTwice` | kern/lib/thr/syscall.c:49-62 | two children, the first made ready and the second not; the second's identifier is returned |
| `ProcessTables.ProcessTable.Wait` | kern/lib/thr/syscall.c:83-105 | -1 and no change for a process that is no child; the child's exit code by one run of the protocol as written if it has exited; otherwise blocked at the decrement |
| `ProcessTables.ProcessTable.Exit` | kern/lib/thr/process.c:136-158 | one run of the protocol as written: status stored, every child released once, exit announced |
| `Lists.List.constructor` | kern/lib/shared/list.c:3-15 | an empty list, sentinels linked |
| `Lists.List.Zeroed` | kern/lib/thr/process.c:17-43 | a list in zeroed memory is an empty list already, as `process_init` relies on |
| `Lists.List.PushBack` | kern/lib/shared/list.c:17-35 | appends, with every link right in both directions |
| `Lists.List.PushFront` | kern/lib/shared/list.c:56-74 | prepends |
| `Lists.List.PopBack` | kern/lib/shared/list.c:37-54 | removes and returns the last element, or null on an empty list |
| `Lists.List.PopFront` | kern/lib/shared/list.c:76-93 | removes and returns the first element, or null on an empty list |
| `Lists.List.Remove` | kern/lib/shared/list.c:95-106 | takes the member out and leaves the others in order; nothing on an empty list |
| `Lists.List.Begin` | kern/lib/shared/list.c:137-140 | the first element, or the tail sentinel |
| `Lists.List.Foreach` | kern/lib/shared/list.c:175-184 | visits every element once, in order |
| `Lists.List.Swap` | kern/lib/shared/list.c:186-204 | exchanges exactly the positions of two members that are not neighbours |
| `Lists.SwapNeighbours` | kern/lib/shared/list.c:186-204 | neighbours, in either order, end up pointing at themselves |
| `Lists.LoopTrapsWalk` | kern/lib/shared/list.c:175-184 | and a walk that reaches such an element never leaves it |
| `Lists.InsertedLinked` | kern/lib/shared/list.c:17-35 | rewriting four links at one place inserts the element there |
| `Lists.RemovedLinked` | kern/lib/shared/list.c:95-106 | rewriting two links takes the element out |
| `Lists.SwappedLinked` | kern/lib/shared/list.c:186-204 | rewriting eight links exchanges two members |
| `Lists.ForwardIsSlice` | kern/lib/shared/list.c:175-184 | following `next` meets the members in order |
| `Lists.BackwardIsReverse` | kern/lib/shared/list.c:37-54 | following `prev` meets them in reverse order |
| `Lists.List.ChainsAreReverses` | kern/lib/shared/list.c:3-106 | the forward and backward chains are mutual reverses |
| `HashTables.DropIs` | kern/lib/util/hashtable.c:76-89 | in a bucket with one element per class, the walk takes out exactly the class of its argument |
| `HashTables.ApplyKeeps` | kern/lib/util/hashtable.c:41-89 | every operation keeps each element in the bucket of its hash and one element per class |
| `HashTables.ApplyFinds` | kern/lib/util/hashtable.c:28-39 | a lookup sees the last operation on its class and nothing else |
| `HashTables.RunKeeps` | kern/lib/util/hashtable.c:7-89 | over every sequence of operations |
| `HashTables.FindReturnsLatest` | kern/lib/util/hashtable.c:7-89 | after every sequence of operations a lookup returns what the last operation on its argument's class left |
| `HashTables.RunFollowsSet` | kern/lib/util/hashtable.c:7-89 | the table's elements are the set that the operations give: insert replaces the equal element, remove takes out the class |
| `HashTables.ForeachVisitsOnce` | kern/lib/util/hashtable.c:60-74 | foreach visits each element once |
| `HashTables.VisitsInOrder` | kern/lib/util/hashtable.c:60-75 | it visits by the last decimal digit of the hash, and elements that share it in the order of their last insertion |
| `HashTables.EntriesDrift` | kern/lib/util/hashtable.c:76-89 | as written `entries` exceeds the number of elements by the number of removals that found one |
| `HashTables.EntriesIsSize` | kern/lib/util/hashtable.c:41-89 | with the missing decrement `entries` is the size of that set; as written exactly when no removal has found anything |
| `HashTableCode.HashTable.constructor` | kern/lib/util/hashtable.c:7-20 | ten empty buckets |
| `HashTableCode.HashTable.Walk` | kern/lib/util/hashtable.c:32-36 | the shared walk stops at the first equal element or at the end |
| `HashTableCode.HashTable.Lookup` | kern/lib/util/hashtable.c:28-39 | the code computes the lookup of the specification |
| `HashTableCode.HashTable.InsertElem` | kern/lib/util/hashtable.c:41-58 | the code computes the insertion |
| `HashTableCode.HashTable.RemoveElem` | kern/lib/util/hashtable.c:76-89 | the code computes the removal, counting or not |
| `HashTableCode.HashTable.Foreach` | kern/lib/util/hashtable.c:60-74 | the nested loops visit the buckets' elements in order |
| `Numerals.ParsePrint` | kern/lib/shared/xprintf.c:222-233 | every printed number reads back as itself in base 8, 10 and 16 |
| `Numerals.PrintIsNumeral` | kern/lib/shared/xprintf.c:222-233 | the digits are those of the number in its base, as the characters 0 to 9 and a to f or A to F |
| `Numerals.NoLeadingZero` | kern/lib/shared/xprintf.c:222-233 | only the numeral of zero starts with the digit zero, and it is that digit alone |
| `Numerals.PrintUsesDigits` | kern/lib/shared/xprintf.c:194-233 | only digits of the base, in the chosen case |
| `Numerals.PrintFitsBuffer` | kern/lib/shared/xprintf.c:222-233 | a 64-bit number needs at most 22 of the 256 bytes |
| `Formats.TextIsCopied` | kern/lib/shared/xprintf.c:309-312 | text before a conversion is copied |
| `Formats.ConversionIsRead` | kern/lib/shared/xprintf.c:76-190 | `read_format` finds the flags, the length and the conversion that a format was spelled with, whichever they are, and stops right behind it |
| `Formats.ConversionIsPrinted` | kern/lib/shared/xprintf.c:299-320 | one conversion writes its rendered argument and hands on the rest |
| `Formats.PrintsPieces` | kern/lib/shared/xprintf.c:299-327 | the output for a spelling is the literal text and the rendered arguments, one after the other, with the number of conversions |
| `Formats.SplitSpells` | kern/lib/shared/xprintf.c:299-320 | the pieces that a format string is split into spell that string |
| `Formats.FormatIsShown` | kern/lib/shared/xprintf.c:299-327 | for every format string: the literal text and rendered arguments of its pieces, or undefined if its last percent sign has no conversion |
| `Formats.MeetsStandardIff` | kern/lib/shared/xprintf.c:192-276 | with any flags, an integer conversion prints what section 7.21.6.1 of C11 asks exactly when it prints at all, the code reads the right value, and no sign and no other prefix is due |
| `Formats.DecimalIsPrinted` | kern/lib/shared/xprintf.c:137-176 | `d`, which has no case, prints like `i` where it prints anything |
| `Formats.OthersMeetStandard` | kern/lib/shared/xprintf.c:278-297 | `c` prints the lowest byte of its argument, `s` copies its text, and two percent signs print one, whatever the flags and lengths |
| `Formats.CountsConversions` | kern/lib/shared/xprintf.c:299-327 | the result is the number of conversions |
| `Formats.MarkStays` | kern/lib/shared/xprintf.c:299-317 | behind `%zu` and any text, `%u` prints all 64 bits of its argument; by itself it prints an `int` widened with its sign |
| `Formats.PointerIsShownIff` | kern/lib/shared/xprintf.c:137-160 | `%p` shows an address exactly in the lowest and the highest two gibibytes |
| `Formats.StackShowsUnless` | kern/lib/shared/xprintf.c:299-317 | whether the uninitialised length marks are set shows in a plain integer conversion except for those same values |
| `Printer.PutDigits` | kern/lib/shared/xprintf.c:222-233 | the loop leaves the numeral reversed in the scratch buffer and never fills it |
| `Printer.NoRoomForSign` | kern/lib/shared/xprintf.c:235-262 | with the width that `read_format` leaves, no padding and no sign is ever written |
| `Printer.WriteInt` | kern/lib/shared/xprintf.c:192-276 | writes prefix, padding, sign and digits for any width, and nothing when right-aligned |
| `Printer.ReadFormatAt` | kern/lib/shared/xprintf.c:76-190 | the moving pointer reads the record and the position of the specification, or runs past the terminator |
| `Printer.WriteFormat` | kern/lib/shared/xprintf.c:278-297 | writes the rendered argument and consumes it |
| `Printer.Vsprintf` | kern/lib/shared/xprintf.c:299-327 | the loop computes the output, the count and the undefined cases of the specification |

## Left out

- Heaps.KfreeKeeps: is about `kfree` with one push, because with two the invariant fails; the exact condition is in `HeapWords.DoublePushUnlessLast`.
- Heaps.KmallocKeeps: is about requests that are 0 or above 8 bytes, and so are the results about runs, because the 8-byte class breaks its own list; `HeapWords.CarvedListIff` is the condition and `HeapWords.TinyBlockGivenTwice` the failing run.
- Heaps.PageReturnedWithLast: assumes that `page_free` returns the page, which as written it does not (`PagePools.Paging.PageFreeAsWritten`).
- Heaps.RunKeeps: is about requests that are 0 or above 8 bytes, as `Heaps.KmallocKeeps` is.
- Heaps.FreeUndoesMalloc: is about requests that are 0 or above 8 bytes, as `Heaps.KmallocKeeps` is.
- HeapWords.AllocRefines: is about requests that are 0 or above 8 bytes; for the others the lists of the source are no sequences (`HeapWords.CarvedListIff`).
- HeapWords.RunRefines: is about requests that are 0 or above 8 bytes, as `HeapWords.AllocRefines` is.
- HeapWords.ReleaseRefines: is about `kfree` with one push; with two, `HeapWords.DoublePushUnlessLast` is the condition.
- HeapWords.FreshBlockStaysZero: excludes requests of 1 to 8 bytes, as `HeapWords.DataSurvives` does.
- HeapWords.DataSurvives: excludes requests of 1 to 8 bytes, because `HeapWords.TinyRequestOverwrites` shows that one of them changes other blocks.
- PageCopies.CopyWorks: is about aligned zero tables, because as written the copy fails; the exact condition is in `PageCopies.CopyAsWrittenIff`.
- PageCopies.CopyFinds: is about aligned zero tables, as `PageCopies.CopyWorks` is.
- PageCopies.CopyIsTree: is about aligned zero tables, as `PageCopies.CopyWorks` is.
- PageCopies.CopyTranslates: is about aligned zero tables, as `PageCopies.CopyWorks` is.
- PageCopies.PlainCopyIsExact: is about aligned zero tables, as `PageCopies.CopyWorks` is.
- PageCopies.CowPageStaysReadOnly: is about aligned zero tables, as `PageCopies.CopyWorks` is.
- PageMaps.PageMap.CopyTable: takes its tables from an aligned pool, where the source takes them from `kcalloc`.
- PageMaps.MapAsWrittenNeedsDirectory: takes a missing table from an aligned pool, where the source takes it from `kcalloc`; the condition is about the directory that the source never adds.
- FileSystem.FreeMap.AllocateSpace: is about one request with nobody in between; requests that interleave are in `Requests`.
- FileSystem.FreeMap.PlaceAll: is about one request with nobody in between, as `FileSystem.FreeMap.AllocateSpace` is.
- Scheduling.StepKeeps: excludes `thread_block` of a waiting thread, which keeps the lists only when no thread is ready (`Links.RemoveFromOtherIff`), and `thread_unblock` of a thread that is not BLOCKED, which pushes an element that may be on a list already (`Links.DoubledIsNoList`).
- Scheduling.RunKeeps: excludes the same two steps as `Scheduling.StepKeeps`.
- Kernels.Kernel.BlockThread: leaves alone the other list of a thread that is waiting; what the source does to it is in `Links.RemoveFromOtherIff`.
- Scheduling.UnitHasRunnableTaker: excludes `thread_block` on other threads, because that parks a woken thread on the way; `Scheduling.UnitHasTaker` is the statement for all runs.
- Printer.WriteInt: the sign test of the source is a parameter, because its shift is undefined for sizes of 8 and 16; `Printer.NoRoomForSign` shows that no outcome of it is written.
- Lists: `list_insert_ordered`, `list_sort`, `list_bestfit` and `list_worstfit`, which are unfinished or unused. What a callback of `list_foreach` does is not modelled; a visit is recorded.
- HashTableCode: the buckets are sequences with the operations that `Lists` proves of the linked lists; an element is its address, and that its links belong to one list at a time is not restated there.
- FileSystem: the header of an inode has 59 slots, and the index levels, offsets, paths and directories behind them are not modelled; `Extents.HeaderSuffices` is about the slots. Reading and writing of sectors is left out.
- PagePools: `page_free` returns one page at a time; returning a whole run is `page_pool_free`. The pool's lock, which the code has commented out, and `page_pool_map`, which is only declared.
- HeapWords: a store writes a whole word, and a caller that writes outside its block is not covered. What happens when no page is left is not modelled beyond the outcome.
- Heaps: the descriptor locks, the test of the magic number and a null argument of `kfree`.
- KernelHeaps: the block and arena sizes of a descriptor are functions of the class, not stored members.
- TwoPools: what a holder of the user map's page stores in it without asking for a zeroed page.
- PageTables: the contents of a page, the translation cache, and the split between kernel and user halves.
- Scheduling: register save and restore, freeing of dead threads, priorities, the sleep queue, condition variables and the lock's holder field. Interrupts arrive only between the modelled steps.
- Handshake: one thread per process; the thread's own scheduling is in `Scheduling`. A run is one of the form that reads the semaphore's value again; the code as written has only the runs without a retry (`Handshake.RunsAsWritten`). Address spaces, executables and the tables of descriptors and semaphores are left out.
- Formats: floating-point conversions, which have no case; arguments that do not match their conversion and lone percent signs are the outcome `Undefined`.
- Device, interrupt and boot code, user-mode libraries, the supplemental page table and the frame table.
