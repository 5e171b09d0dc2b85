# Verified model of Corey

Corey is a multicore research kernel for x86-64 with a user-level library operating
system. This project models the parts of it whose correctness is subtle, in Dafny, and
proves what they promise. Every method follows the code it models branch by branch; what
it promises is stated against an independent specification: a stable sort, a flat map, one
image per page tree, an atomic stack, a map from inodes to byte strings.

## What is modelled

- **Sorting** (`Order`, `Quicksort`, `MergeSort`). Elements are an array, the comparison
  function any total preorder. The explicit stack, the scans without bounds tests, the
  sentinel insertion sort, the merge that copies back only part, and the in-place cycle
  permutation are all there.
- **Page trees** (`PageIndex`, `PageMemory`, `PageTree`, `PagePaths`, `PageEntries`, `PageNodes`,
  `PageForest`, `PageSystem`, `PageRuns`, `PageArray`). One memory with reference counts,
  pins and per-node free lists; any number of trees that share pages in the modes excl, cow
  and cor; the element arrays and segments on top. Counting is done with multisets: the
  books say who names what, and every operation is proved to keep memory and books in
  agreement with an arbitrary rest of the system. `PageSystem` then shows that whatever is
  shared, every tree behaves like a private array of pages.
- **Concurrent protocols** (`SlotRing`, `RwLock`, `BlockPool`). State machines whose steps
  are the single loads, stores and atomic operations of the code, under sequential
  consistency; theorems hold for every interleaving of any length: what is kept, and for the
  ring and the lock that there is no deadlock.
- **Object lifetime** (`ObjectLife`, `ObjectCalls`). Shares, entries, check-outs, deferred
  check-ins and removals, explicit references and per-CPU collection lists, for any number
  of CPUs; each call and each scan is one step.
- **Hash map** (`HashTable`, `KernelMap`). Open addressing with tombstones over an arbitrary
  hash function, and the growing map over it.
- **File system** (`DiskBytes`, `DbfsDisk`, `DbfsFiles`, `Dbfs`). The disk is a string of
  bytes moved in sectors; superblock bits and inode fields are read and written as bytes.
- **Mapping records** (`BackLinks`). The lists that lead from an object to the address-tree
  slots that map it, and the pages those slots have mapped.
- **Smaller parts**. `Memmove`, `AddressSearch`, `Numbers`.

`Arith` holds shared facts about division and powers of two.

## What the code does that one might not expect

Each of these is a theorem here, with a condition on the state before the call and, where the
failure takes some setting up, a run that shows it.

- Freeing a page tree leaves the modes of its direct entries behind. A later fetch for
  writing through such an entry follows a null page pointer
  (`PageForest.GetPage`, `PageRuns.FetchAfterFree`, `PageRuns.FetchFaults`).
- Putting a page that some entry names already breaks the counts unless it goes back into
  its only entry while pinned (`PageEntries.PutNamedPage`, `PageSystem.Kernel.Put`).
- Emptying the entries of an array that shrinks may take indirect pages, and panics without
  memory for them; so does shrinking an array that was longer than a tree can hold
  (`PageArray.DArray.DropPages`, `PageArray.DArray.SetNent`, `PageArray.ShrinkPanics`).
- Sizes within one page of 2^64 round up to zero pages (`PageArray.PagesExact`,
  `PageArray.SegmentSetBytes`).
- Storing a key that is present stores it twice if its probes meet a tombstone first
  (`HashTable.Table.Put`).
- Probing misses slots for capacities that do not divide 2^64 when the hash is close to the
  end of the word range (`HashTable.ProbingCoversAll`).
- A map that has to grow and finds no page frees the address of a local variable, which
  panics; one that cannot enter a page leaks it; one that grows from 2^22 pages gets a
  negative capacity and follows a null pointer; and a full map of 2^27, 2^28 or 2^30 entries
  counts as nearly empty (`KernelMap.Map.Put`, `KernelMap.FullGrows`).
- The lock-free list loses a block with two poppers, because the first element is loaded
  before the count (`BlockPool.TwoPoppersLoseBlock`, `BlockPool.OnePopperExactly`).
- An object stays on the collection list from its allocation until that list is scanned; if
  its last reference goes before that, it is inserted a second time through the same link
  field (`ObjectCalls.Objects.Decref`, `ObjectCalls.ImportThenRemove`).
- Collecting a share with an entry that is checked out fails an assertion, and collecting
  one with a removal still queued leaves the removal pointing into freed memory
  (`ObjectCalls.Objects.Free`, `ObjectCalls.Objects.GcScan`, `ObjectCalls.CollectWhileOut`,
  `ObjectCalls.CollectWithRemoval`).
- Reading a file past its end, or at an offset that is not a whole sector, panics; a read or
  write whose end wraps around 2^64 reports success and moves nothing, unless it wraps into
  the block it starts in, where it moves a negative length; growing a file close
  to 2^64 bytes stores a length without blocks; creating a file on a full disk enters the
  error number as an inode and then panics
  (`Dbfs.FileSystem.Pread`, `Pwrite`, `Truncate`, `Create`).
- The address search treats an empty mapping strictly inside a request as an obstacle, and
  goes round for ever on an empty request that is blocked at the base
  (`AddressSearch.FindsLowest`, `AddressSearch.EmptyMappingMoves`, `AddressSearch.Search`).

## Model

| member | source | states |
|---|---|---|
| `Order.StableSortCorrect` | lib/msort2_7.c:45-170 | the reference stable sort is sorted, a rearrangement, and keeps equal elements in their order |
| `Order.StableSortUnique` | lib/msort2_7.c:45-170 | a result is sorted and keeps equal elements in order if and only if it is the reference stable sort |
| `Order.MergeOfSorts` | lib/msort2_7.c:59-169 | merging the stable sorts of two parts, left first on ties, is the stable sort of the whole |
| `Quicksort.Median` | lib/qsort2_7.c:125-135 | median of three: the ends bracket the pivot and the part is only rearranged |
| `Quicksort.Partition` | lib/qsort2_7.c:119-168 | splits the part into elements not above and not below the pivot; no scan leaves lo..hi; only the part is rearranged |
| `Quicksort.StackHasRoom` | lib/qsort2_7.c:59-62 | in every state of the main loop fewer than STACK_SIZE parts are pending, for any array that fits memory |
| `Quicksort.Shorter` | lib/qsort2_7.c:187-198 | the part that work goes on with is at most half as long as the one it came from, level by level |
| `Quicksort.NextPart` | lib/qsort2_7.c:175-198 | skips short parts, pushes the longer and goes on with the shorter; everything pending stays inside the array and the work left falls |
| `Quicksort.PartitionAll` | lib/qsort2_7.c:105-200 | ends with a prefix of at most MAX_THRESH+1 elements that no later element is below |
| `Quicksort.PlaceMinimum` | lib/qsort2_7.c:216-225 | afterwards the first element is a minimum of the whole array |
| `Quicksort.InsertOne` | lib/qsort2_7.c:229-252 | inserts one element into the sorted run; the unguarded scan stops at the first element |
| `Quicksort.InsertionSort` | lib/qsort2_7.c:210-253 | sorts the array, given where its minimum can be |
| `Quicksort.Sort` | lib/qsort2_7.c:93-254 | for every array and every total preorder the result is a sorted rearrangement |
| `MergeSort.MergeIntoTmp` | lib/msort2_7.c:65-168 | the temporary holds the merge of both runs, except for what is left of the right run |
| `MergeSort.MergeHalves` | lib/msort2_7.c:62-169 | copying back n - n2 elements leaves the whole merge in place |
| `MergeSort.SortWithTmp` | lib/msort2_7.c:45-170 | the range is replaced by its stable sort and nothing else changes |
| `MergeSort.FollowCycle` | lib/msort2_7.c:266-286 | one cycle of the permutation is applied in place and the loop ends |
| `MergeSort.ApplyTable` | lib/msort2_7.c:262-287 | following all cycles puts at every position the element its table entry names |
| `MergeSort.SortThrough` | lib/msort2_7.c:247-260 | stably sorting pointers by what they point to picks the stable sort of the elements |
| `MergeSort.SortIndirect` | lib/msort2_7.c:245-287 | the indirect path yields the stable sort in place |
| `MergeSort.Qsort` | lib/msort2_7.c:171-306 | always a sorted rearrangement; the stable one whenever the space is below 1024 bytes or can be allocated |
| `PageIndex.GetEntp` | kern/kern/pagetree.c:111-132 | finds the position of every page number below the capacity and fails exactly above it |
| `PageIndex.WalkIndirect` | kern/kern/pagetree.c:74-109 | the slots followed are in bounds and spell the page number; nothing is lost in 32-bit variables |
| `PageIndex.PageNoInjective` | kern/kern/pagetree.c:74-132 | no two positions hold the same page number, so the walk is a bijection |
| `PageIndex.NoTruncation` | kern/kern/pagetree.c:101-105 | slot and remainder fit the 32-bit variables at every level |
| `PageIndex.Capacity` | kern/kern/pagetree.c:111-132 | the capacity is 3 + E + E*I + E*I^2 + E*I^3 pages |
| `PageTree.SetLookup` | kern/kern/pagetree.c:74-132 | storing an entry through the walk changes that page number and no other |
| `PageForest.FindAt` | kern/kern/pagetree.c:74-132 | the position the walk finds holds the entry of the flat map |
| `PageForest.ReplaceFind` | kern/kern/pagetree.c:111-132 | a tree refines a flat map from page numbers to entries |
| `PageMemory.PageAlloc` | kern/kern/pagealloc.c:58-122 | takes the first page of the first non-empty list going round from the node asked for; fails only when all lists are empty |
| `PageMemory.AllocOk` | kern/kern/pagealloc.c:58-122 | a page handed out was free and nobody named it, so the assertion of the allocator holds |
| `PageMemory.FrameOutOk` | kern/kern/pagealloc.c:29-56 | freeing an indirect page puts it on the list of its node once; the assertion of page_free holds |
| `PageMemory.DecrefOk` | kern/kern/pagetree.c:9-17 | one reference fewer keeps the books; the page is freed exactly when no entry and no pin is left, and no assertion fires |
| `PageMemory.PinOk` | kern/kern/pagetree.c:26-37 | pinning a page that somebody has meets both checks and keeps the books |
| `PageMemory.UnpinOk` | kern/kern/pagetree.c:39-49 | unpinning keeps the books and frees the page exactly when it was the last holder |
| `PageMemory.SpareUnclaimed` | kern/kern/pagealloc.c:29-122 | the lists hold exactly the pages that the books give to nobody, so their lengths add up to the number of those |
| `PageEntries.CopyPage` | kern/kern/pagetree.c:51-72 | a shared entry gets a page of its own, another one, with the same bytes, if and only if a page is free; otherwise nothing changes; the free pages left are exact |
| `PageEntries.GetEntry` | kern/kern/pagetree.c:134-170 | what an entry shows is kept; a fetch that must copy ends in another, exclusive page, one on demand in a new page, any other changes nothing; null dereference and panic happen exactly under the stated conditions; the free pages left are exact |
| `PageEntries.PutEntry` | kern/kern/pagetree.c:172-190 | the old page loses one reference, the new one gains one; no free page is lost; the books are kept if and only if the page was handed out, or goes back into its only entry while pinned |
| `PageEntries.PutNamedPage` | kern/kern/pagetree.c:172-190 | putting a page that is already named keeps the books if and only if it returns to its only entry while pinned |
| `PageEntries.CopyEnt` | kern/kern/pagetree.c:192-212 | the copy shows what the original shows in every mode: sharing leaves one page and a copy-on-write original, an exclusive copy has another page; on failure nothing changes |
| `PageNodes.Grow` | kern/kern/pagetree.c:74-109 | adds exactly the missing indirect pages on the way and changes no entry; succeeds if and only if there are at most as many of them as free pages |
| `PagePaths.LackMeans` | kern/kern/pagetree.c:74-109 | what is missing on the way to an entry is the last part of its path, and its length is what the walk counts |
| `PageNodes.CopyNode` | kern/kern/pagetree.c:214-247 | a copied subtree shows what the original shows, every entry copied as the mode says; a failed copy still keeps the books |
| `PageNodes.FreeNode` | kern/kern/pagetree.c:278-294 | every page below loses one reference and every indirect page is freed |
| `PageForest.Locate` | kern/kern/pagetree.c:111-132 | reaches the entry of every page number below the capacity without changing any; out of memory if and only if more indirect pages are missing than pages are free |
| `PageForest.LackSize` | kern/kern/pagetree.c:74-109 | the set of missing indirect pages on the way to a page has as many elements as the walk allocates |
| `PageForest.LackInStep` | kern/kern/pagetree.c:74-109 | reaching a range of pages one by one takes each missing indirect page once: the need of the range falls by what each step takes |
| `PageForest.GetPage` | kern/kern/pagetree.c:134-170 | one entry may change, and only if it must be copied or filled; its contents do not; every outcome and the number of free pages left are decided by the entry, the missing indirect pages and the free pages before the call |
| `PageForest.PutPage` | kern/kern/pagetree.c:172-190 | exactly one page number changes; out of memory exactly when the way cannot be completed; free pages are accounted for; the books are kept under the same exact condition on the page |
| `PageForest.FreeTree` | kern/kern/pagetree.c:296-309 | every reference and indirect page is given back, so that exactly the pages nobody else has are free; direct entries keep their modes |
| `PageForest.CopyTree` | kern/kern/pagetree.c:249-276 | equal contents and every entry in the mode asked for on success; an empty target after a failed copy rolls back; succeeds if and only if the copy takes no more pages than are free or only the target has; the free pages left are exact either way |
| `PageSystem.OnlyOwner` | kern/kern/pagetree.c:134-276 | an exclusive entry is the only entry in the system that names its page |
| `PageSystem.SharedNotOwned` | kern/kern/pagetree.c:192-212 | a page named by two entries is exclusive in neither |
| `PageSystem.CountsExact` | kern/kern/pagetree.c:9-49 | the count of a page equals the number of entries naming it plus its pins; it is free exactly when both are zero and it is not otherwise in use |
| `PageSystem.PlacesCounted` | kern/kern/pagetree.c:172-309 | the tally of a tree is the number of page numbers whose entries name the page |
| `PageSystem.Kernel.Get` | kern/kern/pagetree.c:134-170 | all images stay, except that an empty page of a demand tree appears, and of any other tree does not; success, lack of memory, panic and fault and the free pages left are each decided by the state before |
| `PageSystem.Kernel.Put` | kern/kern/pagetree.c:172-190 | one page of one image changes; out of memory if and only if more indirect pages are missing on the way than pages are free; a page that some entry names already breaks the books unless it goes back into its only entry while pinned |
| `PageSystem.Kernel.Store` | kern/kern/pagetree.c:134-170 | a write after a copy-on-write fetch changes one page of one tree and nothing any other tree shows; it is done if and only if the fetch succeeds and there is a page or the tree is on demand |
| `PageSystem.Kernel.Copy` | kern/kern/pagetree.c:249-276 | the target image becomes the source image, its entries in the mode asked for, or empty; all others stay; succeeds if and only if there are pages enough once the target is freed |
| `PageSystem.Kernel.Free` | kern/kern/pagetree.c:296-309 | one image becomes empty; all others stay; exactly the pages nobody else has are free |
| `PageSystem.Kernel.Pin` | kern/kern/pagetree.c:26-37 | panics exactly when nobody has the page |
| `PageSystem.Kernel.Unpin` | kern/kern/pagetree.c:39-49 | panics exactly when the page is not pinned; the last holder frees the page |
| `PageSystem.Kernel.Alloc` | kern/kern/pagealloc.c:58-122 | hands out a page nobody has, if and only if one is free; no image changes |
| `PageSystem.Kernel.FreePage` | kern/kern/pagealloc.c:29-56 | takes a page back; no image changes |
| `PageSystem.Kernel.NewTree` | kern/kern/pagetree.c:311-317 | a new tree shows nothing |
| `PageRuns.Do` | kern/kern/pagetree.c:134-309 | every operation answers as the state before decides, leaves exactly the pages free that it should, has its effect on the images and on the one entry it is on, and leaves the rest alone |
| `PageRuns.Run` | kern/kern/pagetree.c:134-309 | every sequence of get, write, put, copy, free, pin and unpin is a run of such steps from the state before to the one after, and the books are exact in every state on the way; only a panic or fault ends it |
| `PageRuns.Affordable` | kern/kern/pagetree.c:74-276 | with five pages free, or what a copy costs, a step never fails for lack of memory and takes no more than that |
| `PageRuns.EnoughMemory` | kern/kern/pagetree.c:74-276 | a run whose steps together cost no more than the pages free at the start never fails for lack of memory; a panic is then exclusive use of a shared page or a count already zero |
| `PageRuns.Isolation` | kern/kern/pagetree.c:134-276 | over any stretch of any run in which no step addresses a tree it shows the same |
| `PageRuns.CopyIsolated` | kern/kern/segment.c:26-54 | after a copy, for as long as no step addresses one of the two trees, that one shows what the original showed |
| `PageRuns.FetchAfterFree` | kern/kern/pagetree.c:296-309 | fetching for writing after a free fails if and only if the direct entry had been shared |
| `PageRuns.FetchFaults` | kern/kern/pagetree.c:296-309 | a run that faults: put a page, copy the tree copy-on-write, free it, fetch for writing |
| `PageArray.ElementsApart` | kern/kern/darray.c:34-35 | every element lies inside one page and no two elements share a byte |
| `PageArray.PagesExact` | kern/kern/darray.c:50-51 | the page count covers the elements if and only if the rounding does not wrap |
| `PageArray.DArray.constructor` | kern/kern/darray.c:6-17 | an empty array over a new tree, with nothing beyond its end |
| `PageArray.DArray.Get` | kern/kern/darray.c:25-45 | invalid exactly past the end; otherwise the page and offset of the element |
| `PageArray.DArray.DropPages` | kern/kern/darray.c:54-58 | empties exactly the pages asked for; panics if and only if at some page the free pages, with those freed so far, do not make up for the indirect pages missing so far |
| `PageArray.BareDrops` | kern/kern/darray.c:54-58 | where none of the pages is there, dropping them panics if and only if more indirect pages are missing than pages are free |
| `PageArray.PresentDrops` | kern/kern/darray.c:70-75 | pages that are there can always be dropped |
| `PageArray.DArray.ProvidePages` | kern/kern/darray.c:60-82 | fills the range, or rolls back; the assertion of the rollback never fires; where no page is there it succeeds if and only if there is memory for the pages and the way to them |
| `PageArray.DArray.SetNent` | kern/kern/darray.c:47-87 | grows, shrinks or leaves everything as it was; panics if and only if the pages dropped cannot all be reached; growth that is not on demand succeeds if and only if there are pages enough |
| `PageArray.ShrinkPanics` | kern/kern/darray.c:54-58 | a run that panics: a demand array of ten pages is shrunk to none with memory exhausted |
| `PageArray.DArray.GrowNent` | kern/kern/darray.c:98-109 | never shrinks; new pages are cleared; a failed growth leaves everything as it was |
| `PageArray.DArray.CopyTo` | kern/kern/darray.c:117-136 | only into an empty array from a non-empty one; the copy shows what the original shows; exact condition for running out of memory |
| `PageArray.SegmentCopy` | kern/kern/segment.c:26-54 | a fresh segment with the contents of the original in the mode asked for, if and only if the original is not empty and there are pages enough |
| `PageArray.SegmentSetBytes` | kern/kern/segment.c:56-72 | afterwards the segment holds the bytes asked for if and only if the rounding does not wrap; panics exactly when shrinking an array does |
| `SlotRing.RunKeeps` | lib/jsysmon.c:13-58 | the ownership invariant holds in every reachable state of every interleaving of single loads and stores |
| `SlotRing.UserKeeps` | lib/jsysmon.c:13-58 | every load and store of the user side keeps the invariant |
| `SlotRing.MonitorKeeps` | kern/kern/sysmon.c:47-91 | every load and store of the monitor keeps the invariant |
| `SlotRing.CallsInOrder` | kern/kern/sysmon.c:47-91 | the calls executed are a prefix of those submitted, in order, each once, with the arguments written; results return to their callers |
| `SlotRing.NoLostUpdate` | lib/jsysmon.c:25-57 | no flag changes between the load and the store of a non-atomic update |
| `SlotRing.MonitorProgress` | kern/kern/sysmon.c:47-91 | polling is in vain exactly when every submitted call has been executed; otherwise every step brings the monitor closer to that |
| `SlotRing.NeverStuck` | kern/kern/sysmon.c:47-91 | from every reachable state the polling monitor executes all submitted calls within a bounded number of steps, and then the user waits neither for a slot nor for a result |
| `RwLock.StepKeeps` | lib/rwlock.c:10-46 | every atomic step keeps the counters and the flag in agreement with the threads |
| `RwLock.CanFinish` | lib/rwlock.c:10-46 | no deadlock: every run of any number of threads extends to one in which all of them have left |
| `RwLock.MutualExclusion` | lib/rwlock.c:10-46 | no reachable state has a writer together with a reader or another writer, and the unlock assertions hold |
| `BlockPool.FreeFindsHome` | fs/vfs0cache.c:226-240 | the offset arithmetic meets its assertions and recovers the home core |
| `BlockPool.StepKeeps` | inc/lifo.h:60-82 | every load, store and compare-and-swap of push and pop keeps the lists |
| `BlockPool.PushKeeps` | inc/lifo.h:60-68 | a successful swap in a push puts the block on top |
| `BlockPool.PopKeeps` | inc/lifo.h:70-82 | a successful double swap in a pop takes exactly the top |
| `BlockPool.RefinesAtomicStacks` | inc/lifo.h:60-82 | with one popper per list every interleaving is a sequence of atomic pushes and pops |
| `BlockPool.EveryBlockInOnePlace` | fs/vfs0cache.c:97-106 | every block is on its home list once or with one holder |
| `BlockPool.NothingLost` | inc/lifo.h:60-82 | with one popper per list no free block is ever missing from its list |
| `BlockPool.TwoPoppersLoseBlock` | inc/lifo.h:70-82 | in every pool, any two threads that pop from one list have a run from the set-up that loses a block |
| `BlockPool.OnePopperExactly` | inc/lifo.h:60-82 | no run from the set-up loses a block if and only if each list has one popper |
| `HashTable.ProbingCoversAll` | lib/hashtable.c:129-137 | probing reaches every slot if and only if the capacity divides 2^64 or the hash does not wrap |
| `HashTable.LiveIsCardinality` | lib/hashtable.c:139-143 | the size of a good table is the number of bindings of its map |
| `HashTable.SearchComplete` | lib/hashtable.c:159-178 | a search that ends at an empty slot, or passes all slots, means the key is absent |
| `HashTable.Table.constructor` | lib/hashtable.c:209-218 | an empty table |
| `HashTable.Table.Get` | lib/hashtable.c:159-178 | finds exactly the binding of the map |
| `HashTable.Table.Put` | lib/hashtable.c:116-151 | binds an absent key whenever there is room; a present key is stored twice if and only if a tombstone comes first |
| `HashTable.Table.Del` | lib/hashtable.c:186-207 | removes exactly one binding and leaves every other findable |
| `HashTable.Table.NextLive` | lib/hashtable.c:266-282 | the next slot in use, if any |
| `HashTable.PutTwice` | lib/hashtable.c:129-150 | storing a present key behind a tombstone leaves it in two slots |
| `HashTable.TombFirstExample` | lib/hashtable.c:129-150 | a table in which a present key is stored again |
| `KernelMap.PagesDivide` | kern/kern/map.c:25-75 | every capacity the map uses divides 2^64 |
| `KernelMap.CopyAll` | kern/kern/map.c:65-69 | every binding is copied and no put of the copy fails |
| `KernelMap.Map.constructor` | kern/kern/map.c:110-116 | an empty map |
| `KernelMap.Map.Rehash` | kern/kern/map.c:25-75 | the map is exactly preserved, with twice the pages; a failed page_alloc panics, a failed entry of the page leaks it; at 2^22 pages, and only there, the new capacity is negative and the copy faults |
| `KernelMap.Map.Put` | kern/kern/map.c:77-90 | every outcome, refused, out of space, panic or fault, holds if and only if the stated condition does before the call; otherwise an absent key is bound, and a present one stored twice |
| `KernelMap.FullGrows` | kern/kern/map.c:80-89 | a full table is rebuilt if and only if it does not have 2^27, 2^28 or 2^30 entries; with those it stays full although there is memory |
| `KernelMap.Map.Get` | kern/kern/map.c:92-96 | finds exactly the binding of the map |
| `KernelMap.Map.Erase` | kern/kern/map.c:98-102 | removes exactly one binding |
| `ObjectCalls.Objects.Alloc` | kern/kern/kobj.c:22-45 | a new object is listed for collection |
| `ObjectCalls.Objects.Import` | kern/kern/share.c:140-173 | first import holds the object, later ones are counted; kinds outside the mask are refused |
| `ObjectCalls.Objects.CheckOut` | kern/kern/share.c:175-206 | counts the check-out and queues its check-in on this CPU; the object is alive |
| `ObjectCalls.Objects.Remove` | kern/kern/share.c:208-235 | the last import undone takes the entry out of the map and queues one removal |
| `ObjectCalls.Objects.Pin` | kern/kern/kobj.c:47-51 | one explicit reference more |
| `ObjectCalls.Objects.Decref` | kern/kern/kobj.c:53-59 | the count is never zero here; dropping the last reference corrupts the collection lists if and only if the object is still listed |
| `ObjectCalls.Objects.Unpin` | kern/kern/kobj.c:53-59 | one explicit reference fewer |
| `ObjectCalls.Objects.ScanCheckIns` | kern/kern/share.c:99-138 | gives back every check-out of this CPU, as often as it was queued; the assertion never fires |
| `ObjectCalls.Objects.Scan` | kern/kern/share.c:117-138 | carries out removals up to the first that is checked out elsewhere or drops the last reference to a listed object, as the state before decides; each object loses as many references as removals; it waits for other CPUs only |
| `ObjectCalls.Objects.DropEntries` | kern/kern/share.c:237-251 | a share being collected gives up all its entries if and only if none is checked out and none is the last reference to a listed object |
| `ObjectCalls.Objects.Free` | kern/kern/kobj.c:95-104 | collecting one object succeeds if and only if its entries can go and no removal of one is queued |
| `ObjectCalls.Objects.GcScan` | kern/kern/kobj.c:87-105 | frees exactly the objects that can be freed in some order, each listed here without references or held only by shares freed before; succeeds only if no doomed share has an entry out or a removal queued and no doomed object is listed on another CPU, fails only if one does or a doomed object is listed here; where nothing referenced is listed here that is an if and only if |
| `ObjectCalls.DoomedFreed` | kern/kern/kobj.c:87-105 | the order in which a scan goes does not matter: what any order can free, the scan has freed |
| `ObjectCalls.CollectWhileOut` | kern/kern/share.c:237-245 | a run in which collecting a share fails its assertion |
| `ObjectCalls.CollectWithRemoval` | kern/kern/kobj.c:95-104 | a run in which collecting a share leaves a queued removal dangling |
| `ObjectLife.CheckedOutAlive` | kern/kern/kobj.c:87-105 | an object with a check-in outstanding has references and has not been freed |
| `ObjectCalls.CountsMean` | kern/kern/kobj.c:47-59 | the count of an object is the number of shares that hold it plus queued removals plus pins |
| `ObjectCalls.Run` | kern/kern/share.c:99-235 | over every run on any number of CPUs each step has its specified effect and every state has exact counts and frees nothing in use; only a panic or fault ends it, for a reason the state before shows |
| `ObjectCalls.ImportThenRemove` | kern/kern/kobj.c:81-85 | importing and removing an object before its first listing is scanned always lists it twice |
| `DbfsDisk.Disk.Read` | fs/dbfs.c:150-181 | whole sectors only; returns the bytes asked for; an error exactly past the end |
| `DbfsDisk.Disk.Write` | fs/dbfs.c:183-214 | whole sectors only; changes the bytes asked for and no other; an error exactly past the end |
| `DbfsDisk.Disk.ReadBlock` | fs/dbfs.c:232-246 | succeeds exactly at sector offsets, with the bytes of the block |
| `DbfsDisk.Disk.WriteBlock` | fs/dbfs.c:248-263 | changes exactly the stretch of one block, at any offset and length |
| `DbfsDisk.Disk.AllocBlock` | fs/dbfs.c:265-286 | takes the first free block and marks it and no other; fails exactly when all are used |
| `DbfsFiles.DataWritten` | fs/dbfs.c:487-499 | writing a data block moves one stretch of one file and nothing else |
| `DbfsFiles.BlockTaken` | fs/dbfs.c:265-286 | a block from the bitmap belonged to no file, and no file changes |
| `DbfsFiles.InodeGrown` | fs/dbfs.c:464-475 | a longer inode keeps the bytes of its file and every other file, and all blocks stay distinct |
| `DbfsFiles.InodeCreated` | fs/dbfs.c:541-544 | a new inode is an empty file and changes no other |
| `Dbfs.FileSystem.constructor` | fs/dbfs.c:423-438 | after a reset there is one empty directory, and every block but two is free |
| `Dbfs.FileSystem.ReadInode` | fs/dbfs.c:216-222 | reads the inode of a file |
| `Dbfs.FileSystem.TakeBlocks` | fs/dbfs.c:464-475 | takes new, distinct, unowned blocks one by one; how it ends and how many blocks are left is decided by the blocks needed, the room in the inode and the free blocks |
| `Dbfs.FileSystem.Truncate` | fs/dbfs.c:453-479 | grows without changing a byte below the old length; which outcome it has and how many blocks are free afterwards is a function of length, size and free blocks; close to 2^64 it stores a length without blocks, and the disk is no file system any more |
| `Dbfs.GrowsExactly` | fs/dbfs.c:453-479 | growing succeeds if and only if the size is at most 256 blocks and the blocks needed are free, and takes exactly those |
| `Dbfs.FileSystem.Pread` | fs/dbfs.c:501-510 | succeeds if and only if the offset is a sector offset within the file, and returns its bytes; where the end wraps it reports bytes and reads none, or moves a negative length, each under its exact condition |
| `Dbfs.FileSystem.Pwrite` | fs/dbfs.c:512-525 | changes exactly the bytes written, of one file; the outcome and the blocks left free are a function of length, offset, count and free blocks; where the end wraps it reports success and writes nothing |
| `Dbfs.FileSystem.Create` | fs/dbfs.c:527-550 | a new empty file and its entry at the end of the directory; the outcome and the blocks left free are a function of the length of the directory and the free blocks |
| `Dbfs.FileSystem.EnterStray` | fs/dbfs.c:536-544 | on a full disk the directory gets an entry for the error number, whose inode cannot be written |
| `Dbfs.Run` | fs/dbfs.c:453-550 | every sequence of creations, writes and growths is a run from the state before to the one after through sound states; every step ends, moves the files and takes blocks as the state before it decides; only a failure ends it early |
| `Dbfs.NeverFails` | fs/dbfs.c:453-550 | a run within the 256 blocks of an inode and the free blocks does every operation, and none fails |
| `Dbfs.FromReset` | fs/dbfs.c:423-550 | from a reset disk every such sequence of operations runs to its end |
| `Dbfs.Untouched` | fs/dbfs.c:512-525 | over any stretch of any run with no step on a file it keeps every byte |
| `Dbfs.LastWrite` | fs/dbfs.c:512-525 | in every run a byte of a file is what the last write that covers it put there |
| `Dbfs.WriteThenRead` | fs/dbfs.c:501-525 | what was written is read back, if and only if the offset is a sector offset, the end does not wrap and the file can grow that far |
| `BackLinks.Mappings.Fill` | kern/kern/at.c:234-367 | the first fault through a slot puts its record on the list of the object, later ones do not; the assertion never fires |
| `BackLinks.Mappings.SetSlot` | kern/kern/at.c:586-625 | the old mapping is undone before the slot changes |
| `BackLinks.Mappings.Invalidate` | kern/kern/atmap.c:50-70 | drops exactly the records of the share, keeps the rest in order, and unmaps their pages, while walking the list it edits |
| `BackLinks.Mappings.Scope` | kern/kern/atmap.c:72-100 | drops exactly the records that one processor made through one share |
| `BackLinks.Mappings.ClearMappings` | kern/kern/at.c:119-142 | takes every record of the tree off its list |
| `BackLinks.InvalidatedGone` | kern/kern/atmap.c:50-70 | after an object is removed from every share no record of it and no page of it is left in any page map |
| `BackLinks.InvalidatedRest` | kern/kern/atmap.c:50-70 | which records an invalidation keeps, in which order |
| `BackLinks.DropOneIs` | kern/kern/at.c:707-720 | undoing one mapping clears exactly its range |
| `BackLinks.Run` | kern/kern/at.c:586-625 | every run of faults, slot changes, invalidations and scope changes takes the specified steps, and in every state on the way a record is on the list of an object exactly when it maps it, and every mapped page has a record |
| `BackLinks.StaysGone` | kern/kern/atmap.c:50-70 | once an object is invalidated everywhere no page map holds a page of it until a fault goes through a slot that names it |
| `Memmove.Move` | lib/memmove.c:53-123 | the destination holds the old source bytes and nothing else changes, overlapping or not |
| `Memmove.MoveUp` | lib/memmove.c:72-95 | the forward copy, by words between aligned addresses only |
| `Memmove.MoveDown` | lib/memmove.c:96-119 | the backward copy, by words between aligned addresses only |
| `AddressSearch.Search` | lib/as.c:185-207 | ends at the lowest address the test lets through; endless if and only if the request is empty and blocked at the base; its end wraps if and only if every address where it would not is blocked |
| `AddressSearch.BlockedMeans` | lib/as.c:194-197 | the test blocks where a mapping overlaps and where an empty one lies strictly inside, and nowhere else |
| `AddressSearch.FindsLowest` | lib/as.c:185-207 | the result is the lowest address that overlaps nothing if and only if no empty mapping lies inside the request there |
| `AddressSearch.EmptyMappingMoves` | lib/as.c:185-207 | one empty mapping moves the result away from a free address |
| `AddressSearch.ToUser` | kern/kern/at.c:490-528 | the slots in use in ascending order; fails exactly when they do not fit |
| `AddressSearch.GetKslot` | lib/as.c:62-82 | the least slot that is not in use |
| `AddressSearch.FreeSlot` | lib/as.c:62-82 | the least slot that the address tree does not use |
| `Numbers.PrintNum` | lib/printfmt.c:27-49 | prints the digits in the field, and the digit buffer never overflows |
| `Numbers.TableExact` | lib/string.c:72-74 | every entry of the overflow table is the 64-bit maximum divided by its base |
| `Numbers.OverflowExact` | lib/string.c:106-127 | the test before each digit holds if and only if the value would leave 64 bits |
| `Numbers.StrToU64` | lib/string.c:76-142 | computes the parse of the string in one pass with a wrapping accumulator |
| `Numbers.DigitString` | lib/string.c:105-136 | a digit string of any length gives its exact value, or is out of range exactly when that is |
| `Numbers.RoundTrip` | lib/printfmt.c:27-49 | for every 64-bit number, base, width and padding, parsing reads back what was printed |

## Left out

- MergeSort.Qsort: where the temporary space cannot be allocated the code falls back on quicksort, which is not stable, so only sortedness and rearrangement are stated there; the five copying variants of the merge loop differ only in how an element is moved and are one loop here.
- Quicksort.Sort: elements are moved whole, not byte by byte; the array length is bounded by the address space.
- PageSystem.Kernel.Put: a page is one handed out or named by some entry; indirect pages and free pages, which no caller has, are not put.
- PageArray.DArray.SetNent: says nothing about the images after a panic.
- PageArray.SegmentCopy: the invalidation of the mappings of the source is not part of it; what it does is in `BackLinks`.
- PageArray.SegmentSetBytes: the invalidation before shrinking likewise.
- PageIndex.GetEntp: the walk is stated on slots; that it creates indirect pages is in `PageNodes.Grow`.
- KernelMap.Map.Rehash: which allocation fails is a parameter; nothing is said of the state after a fault.
- HashTable.Table.Get: without the skip callback of `hash_get_fn`.
- HashTable.Table.Put: without the skip and value callbacks of `hash_put_fn`; `hash2` is an arbitrary function.
- SlotRing.CallsInOrder: equal slot counts on both sides, both starting at slot 0; the system calls themselves are arbitrary results.
- RwLock.MutualExclusion: fewer than 2^32 threads, so that counters do not wrap.
- RwLock.CanFinish: some schedule leads everybody out; that a writer can be overtaken for ever by new readers is not excluded, as in the code.
- BlockPool.RefinesAtomicStacks: one popper per list; `BlockPool.OnePopperExactly` shows that it takes no less.
- ObjectCalls.Run: blob allocation succeeds, each call and scan is atomic, counts are unbounded; nothing is said of the state after a panic or fault.
- ObjectCalls.Objects.GcScan: where a referenced object is on the list being scanned, whether the scan gets to it before its last share goes depends on the order of the list and of the share's map, which is not modelled; only there is the condition for failing not also sufficient.
- Dbfs.FileSystem.Truncate: storing block numbers past the 256 of an inode is an outcome (`TooBig`); what it overwrites there is not modelled.
- Dbfs.FileSystem.Pwrite: nothing is said of what happens once a negative length is moved; the disk is at least one block larger than the bitmap covers, smaller than 2^63 bytes, and reports no errors inside that.
- Dbfs.FileSystem.Pread: as Dbfs.FileSystem.Pwrite.
- Dbfs.Run: nothing is said of the files after a length without blocks has been stored or a negative length moved.
- Dbfs.FileSystem.Create: the name is already cut to 64 bytes; directory lookup is not modelled.
- Dbfs.NeverFails: the blocks counted for a step are those of its whole reach, so the condition is sufficient; the exact one for each step is in `Dbfs.GrowsExactly`.
- PageRuns.EnoughMemory: likewise sufficient; the exact condition for each step is in `PageRuns.Do`.
- BackLinks.Mappings.Fill: the links that interior trees put into the page map of their parent are not modelled, only the record; lookup caches and TLB shoot-down are not either.
- BackLinks.Mappings.ClearMappings: the page map is not touched, as in the code, so the page half of the invariant is not stated for it.
- BackLinks.Mappings.Invalidate: the list is a sequence; the pointer surgery of the list macros is taken as removal from it.
- AddressSearch.Search: nothing is said of what follows once the end of the request wraps, and mappings themselves do not wrap; the bump allocation that comes first in `cache_get_va` is not modelled.
- Numbers.StrToU64: base 36 reads past the overflow table and is only flagged; a null string is not modelled.
- Page-tree nodes are values, so aliasing of indirect pages is excluded by construction; the pages they occupy are accounted for as frames.
- Concurrent use of one page tree (the compare-and-swap on an indirect pointer, the entry lock), 32-bit wrap of reference counts, hardware pages and `pi_clear`.
- Segment and address-tree callbacks of shares, processors, devices, drivers, boot code, page-map walkers, trap delivery.
- Shrinking truncate, unaligned reads beyond stating that they fail, `dbfs_dir_lookup`, the caches of `vfs0cache.c` other than its block pools.
- Memory ordering weaker than sequential consistency.
