# Verified models of Tor's allocator, containers, codecs and include rules

This project models five parts of the Tor repository in Dafny and proves what they promise.
`dafny verify dfyconfig.toml` checks everything.

**The allocator** (`src/ext/OpenBSD_malloc_Linux.c`). `PageDirectory.dfy` is the sparse
directory of page tags: a list of directory pages, each with its index and its number of
owned slots packed in one word, and two cached hints. `FreeList.dfy` is the list of free
runs. `PageAllocator.dfy` puts both together as `malloc_pages` and `free_pages`: the free
pages, the live blocks with their guard pages and the bucket slots partition the pages that
the allocator owns, and the tags say which is which. `ChunkPage.dfy` is one page of equal
chunks with its bitmap, and the list of a bucket. `Chunks.dfy` is the whole allocator,
`imalloc` and `ifree`, with the nested allocation of `struct pginfo` and the nested release
of pages; what callers hold is the set of chunk addresses `Handed` and the map `PageBlocks`.

Pages are named by their index, sizes in the page allocator are in pages, and a page has
4096 bytes. A class holds the fields that the program updates in place; its ghost field says
what they stand for, and `Valid()` ties the two together. Mapping, unmapping and protecting
memory always succeed, and the addresses of new mappings, random numbers and the contents of
fresh memory are parameters.

A `Session` is a program that calls `malloc` and `free` as it likes and remembers what it
holds: its invariant, kept by every call, says that the allocator hands out exactly that,
and that no two of its allocations overlap.

**The hash table** (`src/ext/ht.h`): `HashTable.dfy`. Chains are linked elements, a slot
pointer is either a bucket or an element's link, and both rehash algorithms are methods on
them. The load is a real number and the limit is the floor of load times prime.

**The codecs** (`src/trunnel`): `Wire.dfy` holds what they share, `CertCodec.dfy`,
`ExtendCodec.dfy`, `SocksCodec.dfy` and `SendmeCodec.dfy` the formats. Each format has a
definition of what its bytes mean (`Parsed...`) and of what an object's bytes are
(`...Encoding`); the encoders work on an array with a cursor and write lengths back, the
parsers with a cursor and a remaining length, and both are proved against the definitions.

**The include rules** (`scripts/maint/practracker/includes.py`): `Includes.dfy` holds the
transitive closure, the sort by levels and the order check. A dictionary is a map that is
updated in place; what they are measured against is walks in the graph: `closure` against
the ends of all walks, the levels against the lengths of the longest ones.

**SipHash and the tail queue** (`src/ext/csiphash.c`, `src/ext/tor_queue.h`): `SipHash.dfy`
and `TailQueue.dfy`. In the tail queue a pointer to a "next" word is a cell of a head or of
an entry, and reading the word behind it is what LAST and PREV do.

## Where the code does something else than it seems to

- `pdir_lookup` compares the distances of its two hints with conditional operators that C
  nests differently: the comparison has no effect and the most recent hint always wins
  (`AlwaysStartsAtLast`). The result of the lookup does not depend on it.
- When a freed run joins two entries, `cachesize` still counts the absorbed one, so
  `free_pages` returns more pages than it needs to: the cache ends below its limit by the
  size of that entry (`TotalAfter`). The limit itself always holds.
- `ifree` does not look at the result of `pdir_lookup` (the test stands under
  `MALLOC_EXTRA_SANITY`, which is not defined): for a pointer whose index has no directory
  page it reads the slot at the same offset of the nearest directory page below, which may
  also be the slot of a bucket (`Inspect`, `ReadAt`, `SlotRead`). It still goes on as it
  should, or refuses, exactly if that slot does not name a page of chunks or a bucket's first
  page, and is not FIRST for an aligned pointer (`DecidesRight`). With directory pages 0 and
  5, and blocks at the indices 20 and 2560, a pointer to index 528 is such a pointer
  (`MisreadExample`): the slot of the block at 20 is marked free, and that page is not on the
  free list. `FreeMisread` proves the marking as it is written; of the list it takes for
  granted only that `free_pages` puts no page below the pointer on it. Then no set of blocks
  agrees with the result, also if the cache is full and the pages are released at once.
- A guard page is tagged FIRST, like the start of a block, and the header of a page of
  chunks has clear bits in the bitmap, like chunks that are handed out. The tests of `ifree`
  let a pointer through exactly if it was handed out or is a look-alike: into a header, at a
  `struct pginfo`, the start of a guard page, or misread as an address that looks handed out
  (`OnlyLookAlikes`). Such pointers exist (`GuardsLookAlike`, `InfosLookAlike`), and what a
  caller holds is never one (`HandedIsSane`). If the pointer is misread as a chunk that was
  handed out, that chunk is freed and the state stays good; the others are what `Sane`
  leaves out (`SaneExactly`), and they spoil the state (`PgInfo.Put`, `InfoFreed`,
  `GuardFreed`, `FreeMisread`).
- `HT_REPLACE` spoils the representation in three ways, and no others (`Table.Replace`). An
  element that is already in the table is counted once more. An element with a stale link
  that replaces none (`HT_NEXT_RMV` and `HT_FOREACH_FN` leave `hte_next` set) hangs what
  follows the link on the bucket; then the memory is no proper set of chains with as many
  elements as are counted, however it is read. And a full table of the last size goes past
  its load limit, as it does with `HT_INSERT` (`Table.Insert`).
- The bound in the scan of `HT_GROW` does not keep it within the table of primes: it leaves
  it exactly for a size that even the last prime cannot hold (`ScanOverruns`). `HT_INSERT` and
  `HT_REPLACE` never get there if the largest table may hold four elements or more
  (`NeverOverruns`), as with the loads in use (`LoadsInUse`). With a load so small that it may
  hold only one, the first insertion does (`TinyLoadOverruns`).
- A SENDME cell of version 0 is encoded with length 0, which the parser refuses
  (`SendmeReturns`).

## Model

| member | source | states |
|---|---|---|
| PageDirectory.Lookup | src/ext/OpenBSD_malloc_Linux.c:301-344 | `pdir_lookup` through its five branches: for any two hints that are in the list or NULL, the node with the greatest index that is not above the wanted one, or the first node; code 0 exactly if the index is present, 1 exactly if it is below the first |
| PageDirectory.Forward | src/ext/OpenBSD_malloc_Linux.c:330-339 | both upward loops of the lookup end at the nearest node |
| PageDirectory.Backward | src/ext/OpenBSD_malloc_Linux.c:322-328 | the downward loop, with the step after it, ends at the nearest node |
| PageDirectory.AlwaysStartsAtLast | src/ext/OpenBSD_malloc_Linux.c:312-320 | as C nests the two conditional operators, the comparison of distances always picks `last_dir` |
| PageDirectory.NearestDecides | src/ext/OpenBSD_malloc_Linux.c:342-343 | in a list ordered by index, the nearest node decides whether the index is present |
| PageDirectory.NearestIsOne | src/ext/OpenBSD_malloc_Linux.c:322-339 | only one position is the nearest: any two searches agree |
| PageDirectory.ReadsOwn | src/ext/OpenBSD_malloc_Linux.c:1837-1851 | the slot that `ifree` reads is that of the index itself exactly if there is a directory page for it |
| PageDirectory.ClaimStepIsShare | src/ext/OpenBSD_malloc_Linux.c:629-640 | the three cases of what is added to `dirnum` are the number of mapped pages that fall into that directory page, and these shares follow each other without gap from the first page to the last |
| PageDirectory.CountAdd | src/ext/OpenBSD_malloc_Linux.c:629-640 | owning a run of new pages within one directory page raises its count by the length of the run and no other count |
| PageDirectory.CountRemove | src/ext/OpenBSD_malloc_Linux.c:1608-1617 | giving one page up lowers the count of its directory page by one and no other |
| PageDirectory.AddTo | src/ext/OpenBSD_malloc_Linux.c:629-647 | `dirnum` keeps index and count packed without a carry: the count stays within a directory page, the sanity check never fires |
| PageDirectory.ClaimDir | src/ext/OpenBSD_malloc_Linux.c:612-654 | one turn of the loop keeps the list ordered, linked both ways, packed and without needless nodes, and adds exactly the share of that directory page |
| PageDirectory.InsertAfter | src/ext/OpenBSD_malloc_Linux.c:617-627 | a directory page is inserted behind the last one below it, and both directions of the list stay right |
| PageDirectory.Unlink | src/ext/OpenBSD_malloc_Linux.c:1630-1638 | a directory page is taken out, and both directions of the list stay right |
| PageDirectory.DropIfEmpty | src/ext/OpenBSD_malloc_Linux.c:1625-1640 | a node is unlinked exactly if its count is zero, and the head, which holds the bucket slots, never is |
| PageDirectory.Directory.constructor | src/ext/OpenBSD_malloc_Linux.c:830-833 | the initial directory has one node with index 0 and twelve owned slots |
| PageDirectory.Directory.MapPages | src/ext/OpenBSD_malloc_Linux.c:585-663 | the mapped pages become owned and nothing else changes; hints stay in the list; no more directory pages are inserted than were counted beforehand (the "cnt > dirs" check) |
| PageDirectory.Directory.MapLoop | src/ext/OpenBSD_malloc_Linux.c:611-658 | the loop over the directory pages adds up to the whole run |
| PageDirectory.Directory.MarkRun | src/ext/OpenBSD_malloc_Linux.c:966-1014 | the first page of a block is tagged FIRST, the others FOLLOW, the guard page FIRST, and no other slot changes; there is no hole in the directory |
| PageDirectory.Directory.FreeRun | src/ext/OpenBSD_malloc_Linux.c:1437-1492 | counting FIRST and FOLLOW recovers exactly the length of the run that starts there, frees these slots and that of the guard page, and no others |
| PageDirectory.Directory.RunLength | src/ext/OpenBSD_malloc_Linux.c:1344-1362 | the count in `irealloc` recovers exactly the length of the run |
| PageDirectory.Directory.FreeSeen | src/ext/OpenBSD_malloc_Linux.c:1437-1492 | the marking of `free_pages` as it is for any index, from the slot that is read on: it ends, that slot is marked free, and no slot changes otherwise |
| PageDirectory.Directory.Unmap | src/ext/OpenBSD_malloc_Linux.c:1581-1660 | the pages that go back to the system are no longer owned or tagged and no other page is touched; empty directory pages go, and both hints name nodes that are still in the list |
| PageDirectory.Directory.Release | src/ext/OpenBSD_malloc_Linux.c:1604-1660 | the loop over the slots, with its break and the unlinking after it, releases exactly the given pages |
| PageDirectory.Directory.Kept | src/ext/OpenBSD_malloc_Linux.c:1598-1600 | a node is still in the list if a page it is for is still owned |
| PageDirectory.Directory.Inspect | src/ext/OpenBSD_malloc_Linux.c:1837-1851 | the lookup of `ifree`, as written: for any index, it reads the slot at that offset of the nearest directory page, a bucket's slot included, whether it is the right one or not, and only changes the hints |
| FreeList.NormalUnique | src/ext/OpenBSD_malloc_Linux.c:1520-1573 | there is only one address-ordered, coalesced list for a set of free pages |
| FreeList.WithinOne | src/ext/OpenBSD_malloc_Linux.c:863-942 | a run of free pages lies within one entry: nothing that fits is hidden across entries |
| FreeList.FirstFitIsLowest | src/ext/OpenBSD_malloc_Linux.c:863-942 | first fit takes the lowest address where the request fits, or finds none exactly if it fits nowhere |
| FreeList.TotalCounts | src/ext/OpenBSD_malloc_Linux.c:1520-1533 | the sizes of the entries add up to the number of free pages |
| FreeList.EntryIsMaximal | src/ext/OpenBSD_malloc_Linux.c:1536-1563 | every entry is a maximal run of free pages |
| FreeList.Situation | src/ext/OpenBSD_malloc_Linux.c:1535-1573 | where the search for the place stops, one of the four ways of joining the list applies |
| FreeList.Neighbours | src/ext/OpenBSD_malloc_Linux.c:1542-1555 | pages freed behind an entry reach at most the next entry |
| FreeList.List.FirstFit | src/ext/OpenBSD_malloc_Linux.c:863-942 | the search stops at the first entry that is large enough |
| FreeList.List.Locate | src/ext/OpenBSD_malloc_Linux.c:1523-1533 | the two loops find the place of a freed run and the total size of the list |
| FreeList.List.Remove | src/ext/OpenBSD_malloc_Linux.c:917-924 | an entry taken out whole: exactly its pages leave |
| FreeList.List.Resize | src/ext/OpenBSD_malloc_Linux.c:926-941 | an entry that loses its front, or changes size: exactly the difference leaves or joins |
| FreeList.List.AppendTo | src/ext/OpenBSD_malloc_Linux.c:1542-1555 | appending to an entry, with the second merge: exactly the freed pages join, and the size of the absorbed entry is known |
| FreeList.List.PrependTo | src/ext/OpenBSD_malloc_Linux.c:1556-1561 | prepending to an entry: exactly the freed pages join |
| FreeList.List.Insert | src/ext/OpenBSD_malloc_Linux.c:1507-1573 | a freed run joins the list in one of four ways, the list stays ordered, disjoint and coalesced, "freelist is destroyed" cannot be reached, and `cachesize` is the size of all other entries and of the absorbed one |
| PageAllocator.RunIsBlock | src/ext/OpenBSD_malloc_Linux.c:1344-1362 | the FIRST FOLLOW* run at a live block has exactly the length that was handed out, with or without guard pages |
| PageAllocator.BlocksDisjoint | src/ext/OpenBSD_malloc_Linux.c:848-1028 | two live blocks, with their guard pages, have no page in common |
| PageAllocator.FirstTags | src/ext/OpenBSD_malloc_Linux.c:966-1014 | the tag FIRST means the start of a block of pages, or a guard page, and nothing else |
| PageAllocator.DecidesRight | src/ext/OpenBSD_malloc_Linux.c:1837-1856 | for any index and any contents of the bucket slots, `ifree` goes on as the slot of that index says, or refuses as it should, exactly if the index is not misread |
| PageAllocator.MisreadExample | src/ext/OpenBSD_malloc_Linux.c:1437-1573 | a state that the allocator can be in (directory pages 0 and 5, blocks at 20 and 2560), where a pointer to index 528 is misread as the block at 20, and what follows from freeing it |
| PageAllocator.FreeButNotListed | src/ext/OpenBSD_malloc_Linux.c:1437-1573 | once a page is tagged FREE and not on the list, no set of blocks agrees with directory and list, as long as the list only gains later pages |
| PageAllocator.Pages.FreeMisread | src/ext/OpenBSD_malloc_Linux.c:1437-1492 | a misread pointer that is taken for a block: the slot of a page of another block is marked free, with the marking as it is written, and no set of blocks agrees with the state from then on |
| PageAllocator.GuardFreed | src/ext/OpenBSD_malloc_Linux.c:1423-1492 | once the guard page of a block is marked free, the block is none any more, wherever the list is |
| PageAllocator.BlockMadeOwned | src/ext/OpenBSD_malloc_Linux.c:966-1014 | a new block on pages of no block leaves every page with at most one block |
| PageAllocator.BlockFreedTags | src/ext/OpenBSD_malloc_Linux.c:1437-1492 | after a block is freed, the tags agree with the remaining blocks and the larger set of free pages |
| PageAllocator.Conserved | src/ext/OpenBSD_malloc_Linux.c:1016-1017 | owned pages = bucket slots + pages in use + guard pages + free pages |
| PageAllocator.FreeUndoesMalloc | src/ext/OpenBSD_malloc_Linux.c:1418-1711 | a block from the free list leaves the list as it was when it is freed again, however full the cache is |
| PageAllocator.Pages.constructor | src/ext/OpenBSD_malloc_Linux.c:830-841 | the initial allocator is consistent and has no block |
| PageAllocator.Pages.MallocPages | src/ext/OpenBSD_malloc_Linux.c:848-1028 | the block is new and no other changes; its pages come from the lowest place in the free list where they fit, or from the system if they fit nowhere; all three structures agree again and no page is lost |
| PageAllocator.Pages.TakeEntry | src/ext/OpenBSD_malloc_Linux.c:914-941 | carving from an entry removes exactly the front pages, keeps the list coalesced and the entry anchored in the directory |
| PageAllocator.Pages.Obtain | src/ext/OpenBSD_malloc_Linux.c:860-965 | the pages come from the lowest fitting free run, or are mapped |
| PageAllocator.Pages.Hand | src/ext/OpenBSD_malloc_Linux.c:966-1017 | the pages become a block and the counters of used and guard pages follow |
| PageAllocator.Pages.TakeBack | src/ext/OpenBSD_malloc_Linux.c:1437-1493 | exactly the pages of the block are counted and marked free, and the counters follow |
| PageAllocator.Pages.PutBack | src/ext/OpenBSD_malloc_Linux.c:1499-1573 | the pages join the free list in one entry, which is a maximal free run |
| PageAllocator.Pages.Trim | src/ext/OpenBSD_malloc_Linux.c:1575-1711 | after the release the free pages are within the cache: `malloc_cache - cachesize` does not underflow, and what goes back is the end of the entry |
| PageAllocator.Pages.FreePages | src/ext/OpenBSD_malloc_Linux.c:1418-1716 | exact outcome of `free_pages`: only this block goes; its pages join entry r; if the list outgrows the cache by the allocator's own count, which still counts an absorbed entry, that many pages at the end of r go back to the system; only an entry that was just inserted can go entirely |
| PageAllocator.Pages.Retag | src/ext/OpenBSD_malloc_Linux.c:1120-1135 | turning a block of one page into a page of chunks, or back, changes that slot only |
| PageAllocator.Pages.FreePointer | src/ext/OpenBSD_malloc_Linux.c:1810-1862 | every pointer is decided by the slot that is read for it, a bucket's included: too low, chunk page, free already, wrong page, misaligned, or freed; only the last changes anything but hints. Asked for only what is taken for a block: that it is one |
| PageAllocator.Pages.SizeOf | src/ext/OpenBSD_malloc_Linux.c:1344-1362 | `irealloc` finds the size of a block of pages |
| PageAllocator.Pages.MallocFree | src/ext/OpenBSD_malloc_Linux.c:848-1716 | malloc_pages followed by free_pages of the block: the same blocks, and the same free list if the block came from it |
| PageAllocator.Pages.FreePage | src/ext/OpenBSD_malloc_Linux.c:892-911 | a slot is FREE exactly if one free-list entry covers the page, exactly one then, and no block |
| PageAllocator.Pages.FollowPage | src/ext/OpenBSD_malloc_Linux.c:982-999 | a FOLLOW comes after a FIRST or FOLLOW of the same block |
| PageAllocator.Pages.NothingLost | src/ext/OpenBSD_malloc_Linux.c:1016-1017 | in every consistent state mapped = used + guarded + free |
| PageAllocator.Pages.StillAnchored | src/ext/OpenBSD_malloc_Linux.c:1594-1660 | no free entry names an unlinked directory node after a release |
| PageAllocator.Pages.IsFirstFit | src/ext/OpenBSD_malloc_Linux.c:863-942 | what the search finds is the lowest place, and NULL means that the request fits nowhere |
| ChunkPage.BucketTable | src/ext/OpenBSD_malloc_Linux.c:1053-1070 | for every bucket: the chunks divide the page, the bitmap covers them, the header is in the page for sizes 16 to 64 only and covers the first chunks, and at least two chunks remain |
| ChunkPage.Rows | src/ext/OpenBSD_malloc_Linux.c:1053-1094 | chunk size, positions, bitmap words and stolen chunks of each of the nine buckets |
| ChunkPage.FindBucket | src/ext/OpenBSD_malloc_Linux.c:1155-1168 | the bucket is the one whose size is the smallest that holds the request |
| ChunkPage.FitsIsUnique | src/ext/OpenBSD_malloc_Linux.c:1155-1168 | only one bucket fits a request |
| ChunkPage.SetAll | src/ext/OpenBSD_malloc_Linux.c:1098-1107 | both loops together set the first n bits, whatever memory held |
| ChunkPage.Steal | src/ext/OpenBSD_malloc_Linux.c:1109-1117 | the chunks under the header, and only they, are cleared and uncounted |
| ChunkPage.MakeInfo | src/ext/OpenBSD_malloc_Linux.c:1075-1118 | a fresh page: free = total, no chunk handed out, header chunks never free |
| ChunkPage.FirstSet | src/ext/OpenBSD_malloc_Linux.c:1176-1186 | both scans end at the first set bit, which is a chunk even though bits past the last chunk may be anything |
| ChunkPage.Walk | src/ext/OpenBSD_malloc_Linux.c:1188-1211 | the random walk ends i set bits further on, within the chunks, and the "chunk overflow" check never fires |
| ChunkPage.SameWords | src/ext/OpenBSD_malloc_Linux.c:1200-1206 | for every bucket, the last word of the bitmap is the same with and without the stolen chunks |
| ChunkPage.PgInfo.Take | src/ext/OpenBSD_malloc_Linux.c:1176-1222 | the chunk returned was free; it and nothing else is handed out; without `malloc_guard` it is the first free one |
| ChunkPage.PgInfo.Put | src/ext/OpenBSD_malloc_Linux.c:1738-1749 | a chunk that was handed out becomes free and nothing else changes; one that is free is refused; the struct stays good exactly if the position is a chunk, and not one under the header, which looks handed out |
| ChunkPage.PgInfo.FullOrEmpty | src/ext/OpenBSD_malloc_Linux.c:1756-1769 | `free == 0` exactly if all chunks are handed out, `free == total` exactly if none is |
| ChunkPage.InsertInfo | src/ext/OpenBSD_malloc_Linux.c:1756-1767 | the insertion puts the page into its list, once, at the slot where the search stops |
| ChunkPage.RemoveInfo | src/ext/OpenBSD_malloc_Linux.c:1771-1782 | the search ends at the page, which leaves its list |
| ChunkPage.PushInfo | src/ext/OpenBSD_malloc_Linux.c:1137-1138 | a new page becomes the first of its list |
| ChunkPage.PopInfo | src/ext/OpenBSD_malloc_Linux.c:1214-1218 | a full page leaves the front of its list |
| Chunks.ChunksApart | src/ext/OpenBSD_malloc_Linux.c:1219-1225 | two chunks that are handed out do not overlap |
| Chunks.ChunkAboveHeader | src/ext/OpenBSD_malloc_Linux.c:1109-1117 | no chunk that is handed out overlaps a header in its page |
| Chunks.NotHome | src/ext/OpenBSD_malloc_Linux.c:1176-1222 | a chunk that is free is not where a `struct pginfo` is |
| Chunks.AddrParts | src/ext/OpenBSD_malloc_Linux.c:1219-1225 | the address of a chunk determines page and chunk |
| Chunks.AddrBack | src/ext/OpenBSD_malloc_Linux.c:1734-1741 | an aligned address in a page is the start of one chunk |
| Chunks.Taken | src/ext/OpenBSD_malloc_Linux.c:1213-1225 | handing out a free chunk adds its address to what callers hold, and nothing else |
| Chunks.GivenBack | src/ext/OpenBSD_malloc_Linux.c:1752-1754 | taking a chunk back removes its address, and nothing else |
| Chunks.PageAdded | src/ext/OpenBSD_malloc_Linux.c:1120-1138 | a new page of chunks gives callers nothing; the chunk that holds its `struct pginfo` is the allocator's |
| Chunks.PageRemoved | src/ext/OpenBSD_malloc_Linux.c:1771-1808 | an empty page can go: no `struct pginfo` is in it |
| Chunks.NestedRank | src/ext/OpenBSD_malloc_Linux.c:1052-1074 | the chunk for a `struct pginfo` comes from a bucket that nests less deep |
| Chunks.Heap.constructor | src/ext/OpenBSD_malloc_Linux.c:830-841 | the initial heap is consistent and empty |
| Chunks.Heap.TakeChunk | src/ext/OpenBSD_malloc_Linux.c:1174-1225 | the search of the bucket ends, the chunk was free, and the page leaves the list exactly if it became full |
| Chunks.Heap.LinkPage | src/ext/OpenBSD_malloc_Linux.c:1120-1138 | the new page joins directory and bucket |
| Chunks.Heap.MakeChunks | src/ext/OpenBSD_malloc_Linux.c:1036-1142 | the bucket gets a page with free chunks, nested allocations included, and callers see no difference |
| Chunks.Heap.MallocBytes | src/ext/OpenBSD_malloc_Linux.c:1148-1226 | the chunk fits the size, was not in use, and is the only difference for callers; no page of chunks is kept unused |
| Chunks.Heap.GiveChunk | src/ext/OpenBSD_malloc_Linux.c:1738-1767 | a page is on its bucket's list exactly if it has free chunks, also after a chunk came back |
| Chunks.Heap.ReleasePage | src/ext/OpenBSD_malloc_Linux.c:1771-1782 | an empty page leaves bucket and table |
| Chunks.Heap.EmptyPage | src/ext/OpenBSD_malloc_Linux.c:1771-1808 | the page and its `struct pginfo` are freed, recursively, and callers see no difference |
| Chunks.Heap.FreeBytes | src/ext/OpenBSD_malloc_Linux.c:1723-1808 | a chunk that is in use is taken back and is the only difference for callers; misaligned and free ones are refused without any change; a page whose last chunk came back is released |
| Chunks.Heap.IFree | src/ext/OpenBSD_malloc_Linux.c:1810-1862 | chunk, block of pages or refusal, decided by what was handed out at the address that the pointer is taken for; only that is taken back, and every pointer but a look-alike is refused otherwise |
| Chunks.Heap.IMalloc | src/ext/OpenBSD_malloc_Linux.c:1239-1275 | small requests get a new chunk, others a new block of enough pages, neither was held before, and sizes above SIZE_MAX - malloc_pagesize get NULL and change nothing |
| Chunks.Heap.MallocFree | src/ext/OpenBSD_malloc_Linux.c:1239-1862 | an allocation followed by its release leaves callers where they were |
| Chunks.Heap.OnlyLookAlikes | src/ext/OpenBSD_malloc_Linux.c:1423-1435 | the tests of `ifree` (without "too high"), `free_pages` and `free_bytes` on tag, alignment and bitmap let a pointer through exactly if it was handed out or is a look-alike |
| Chunks.Heap.SaneExactly | src/ext/OpenBSD_malloc_Linux.c:1810-1862 | `ifree` is covered for all pointers but the look-alikes, and for those that are misread as a chunk that was handed out |
| Chunks.Heap.GuardsLookAlike | src/ext/OpenBSD_malloc_Linux.c:1000-1014 | with guard pages, the page after any block passes the tests and was not handed out |
| Chunks.Heap.InfosLookAlike | src/ext/OpenBSD_malloc_Linux.c:1120-1135 | the `struct pginfo` of any page of chunks passes the tests and was not handed out |
| Chunks.InfoFreed | src/ext/OpenBSD_malloc_Linux.c:1738-1749 | once the chunk of a `struct pginfo` is marked free, the table of pages of chunks is not good any more |
| Chunks.Heap.HandedIsSane | src/ext/OpenBSD_malloc_Linux.c:1810-1862 | in every consistent state, what callers hold is no look-alike and can be freed |
| Chunks.Heap.TagsOfBlocks | src/ext/OpenBSD_malloc_Linux.c:1845-1851 | the tag FIRST means a block that callers hold, or a guard page |
| Chunks.Heap.Apart | src/ext/OpenBSD_malloc_Linux.c:1219-1225 | nothing that is in use, chunk, `struct pginfo` or block of pages, overlaps anything else that is, in bytes |
| Chunks.Session.constructor | src/ext/OpenBSD_malloc_Linux.c:830-841 | a program that holds nothing yet |
| Chunks.Session.Malloc | src/ext/OpenBSD_malloc_Linux.c:1239-1275 | a new address is held, for the size that was asked for, and all else stays held |
| Chunks.Session.Free | src/ext/OpenBSD_malloc_Linux.c:1810-1862 | what is held can always be freed, and only it stops being held; of other addresses, what they are taken for is freed, or they are refused |
| Chunks.Session.Apart | src/ext/OpenBSD_malloc_Linux.c:1239-1862 | after any calls, what the program holds does not overlap, for the sizes it asked for |
| Chunks.Heap.TablePages | src/ext/OpenBSD_malloc_Linux.c:1120-1135 | every page of chunks is a live block of one page |
| Chunks.Heap.Kinds | src/ext/OpenBSD_malloc_Linux.c:1845-1851 | the slot of a page tells chunk pages from blocks and from everything else |
| HashTable.RehashCopying | src/ext/ht.h:457-474 | every element is in the new table once, in bucket hash % new_len |
| HashTable.RehashInPlace | src/ext/ht.h:475-495 | the same for the rehash within the table: same elements, each once, each in bucket hash % new_len |
| HashTable.SettleChain | src/ext/ht.h:482-493 | one bucket of the in-place rehash: it ends, although elements that were moved forward are looked at again |
| HashTable.SettledAfterMove | src/ext/ht.h:484-491 | moving an element to another bucket keeps what is settled settled |
| HashTable.ChainsDistinct | src/ext/ht.h:105-112 | a chain that ends in NULL holds no element twice |
| HashTable.ScanOverruns | src/ext/ht.h:451-456 | the scan of the primes stops at the first that is large enough; it leaves the table of primes exactly for a size that even the last prime cannot hold |
| HashTable.LimitMonotone | src/ext/ht.h:452-456 | the load limit grows with the prime |
| HashTable.LastIsLarger | src/ext/ht.h:451-456 | unless the load is next to nothing, the last prime holds at least two elements more than any other |
| HashTable.LoadsInUse | src/ext/ht.h:425-434 | the loads 0.5 and 0.6 are large enough for that |
| HashTable.TinyLoadOverruns | src/ext/ht.h:451-456 | with a load for which the largest table holds one element at most, the first INSERT reads behind the table of primes |
| HashTable.Table.NeverOverruns | src/ext/ht.h:280-302 | in every good table with such a load, whatever INSERT or REPLACE is given, HT_GROW stays within the table of primes |
| HashTable.FlatOnce | src/ext/ht.h:361-400 | a traversal from a bucket on meets every element of those buckets once |
| HashTable.ListsCount | src/ext/ht.h:543-545 | elements and keys are equally many |
| HashTable.Table.constructor | src/ext/ht.h:243-250 | the empty table stands for the empty map |
| HashTable.Table.Grow | src/ext/ht.h:441-500 | grows to the first prime with a limit above the size, with either rehash, or leaves everything alone, also a table of the last size whatever the size asked for; contents and elements stay |
| HashTable.Table.FindP | src/ext/ht.h:253-266 | the slot of the element with this key, or the end of its chain; NULL exactly for a head without a table |
| HashTable.Table.Find | src/ext/ht.h:269-277 | looks the key up in the map |
| HashTable.Table.Insert | src/ext/ht.h:280-291 | adds an absent key to the map; the representation stays good exactly if the table was not full; the scan of the primes stays within them |
| HashTable.Table.Replace | src/ext/ht.h:295-314 | updates the map and returns the element that was replaced; the representation stays good exactly if the element was not in the table, had no stale link or replaced an equal one, and there was room or it replaced one. With a stale link and an absent key, no reading of the memory as chains has as many elements as the table counts |
| HashTable.Append | src/ext/ht.h:303-306 | an element put at the end of a chain joins it exactly if it has no link; with one, every reading of the memory as chains has at least two elements more |
| HashTable.HungPrefix | src/ext/ht.h:303-306 | however the memory is read, the old chains are still there |
| HashTable.HungTotal | src/ext/ht.h:303-306 | and so are the new element and the one behind it |
| HashTable.Table.Remove | src/ext/ht.h:317-330 | removes the key from the map, and unlinks its element |
| HashTable.Table.Run | src/ext/ht.h:253-330 | every legal run of operations, however long, that adds an element only below the last load limit gives the answers of the same run on a finite map and keeps the representation good |
| HashTable.Table.RepIsBad | src/ext/ht.h:513-546 | the code is 0 exactly if the conditions it checks hold |
| HashTable.Table.RepOkIsValid | src/ext/ht.h:513-546 | for a table that is linked and lists a map, these conditions are exactly the invariant |
| HashTable.Table.Start | src/ext/ht.h:361-374 | the first element in traversal order, or NULL for none |
| HashTable.Table.Next | src/ext/ht.h:381-400 | the next element in traversal order |
| HashTable.Table.NextRmv | src/ext/ht.h:403-420 | removes the current element, which keeps its link, and goes on with the one after it |
| HashTable.Table.Sweep | src/ext/ht.h:361-420 | a START / NEXT / NEXT_RMV loop visits each element that was present once, whichever it removes, and keeps exactly the others |
| HashTable.Table.ForEachFn | src/ext/ht.h:335-357 | the callback sees each element once, in chain order; each chain keeps, in order, exactly those it returned zero for, and the count is right |
| HashTable.Table.FilterChain | src/ext/ht.h:345-355 | the inner loop filters one chain |
| TailQueue.Head.constructor | src/ext/tor_queue.h:383-386 | the empty queue |
| TailQueue.Head.InsertHead | src/ext/tor_queue.h:388-396 | the entry comes first |
| TailQueue.Head.InsertTail | src/ext/tor_queue.h:398-403 | the entry comes last |
| TailQueue.Head.InsertAfter | src/ext/tor_queue.h:405-413 | the entry comes behind the given one |
| TailQueue.Head.InsertBefore | src/ext/tor_queue.h:415-420 | the entry comes in front of the given one |
| TailQueue.Head.Remove | src/ext/tor_queue.h:422-431 | the entry goes, the others keep their order |
| TailQueue.Head.Replace | src/ext/tor_queue.h:433-443 | the new entry takes the place of the old one |
| TailQueue.Head.Last | src/ext/tor_queue.h:348-349 | reading `tqh_last` as a head gives the last entry, or NULL for an empty queue |
| TailQueue.Head.Prev | src/ext/tor_queue.h:351-352 | reading `tqe_prev` as a head gives the entry in front, or NULL for the first |
| TailQueue.Head.Forward | src/ext/tor_queue.h:357-360 | walks the queue in order |
| TailQueue.Head.Backward | src/ext/tor_queue.h:369-372 | walks it in exactly the reverse order |
| TailQueue.Head.Run | src/ext/tor_queue.h:388-443 | any script of operations does to the queue what it does to a sequence |
| Includes.Closure | scripts/maint/practracker/includes.py:203-222 | ends, and each set holds exactly what one or more uses lead to |
| Includes.ClosePass | scripts/maint/practracker/includes.py:213-218 | a pass only adds what is reachable, reports a change exactly if there was one, and without one everything is closed |
| Includes.CloseNode | scripts/maint/practracker/includes.py:214-218 | one node takes over the sets of its members |
| Includes.ClosedReaches | scripts/maint/practracker/includes.py:212-221 | closed sets hold the ends of all paths |
| Includes.FewerMissing | scripts/maint/practracker/includes.py:212-222 | a pass with a change leaves fewer pairs missing |
| Includes.Graph.TakeLevel | scripts/maint/practracker/includes.py:244-252 | a level is exactly the nodes whose longest dependency path has that many edges, each once |
| Includes.Graph.TopoSort | scripts/maint/practracker/includes.py:224-257 | level n is exactly the nodes whose longest dependency path has n edges; what remains are the deeper ones; with limit + 1 >= nodes the graph empties exactly if it is acyclic |
| Includes.GoesRound | scripts/maint/practracker/includes.py:235-239 | a dependency path with as many edges as there are nodes goes through a cycle |
| Includes.CycleDeep | scripts/maint/practracker/includes.py:235-239 | a node on a cycle has paths of every length |
| Includes.Emptied | scripts/maint/practracker/includes.py:254-257 | the limit check tells cycles from their absence if every node could have a level of its own |
| Includes.CheckOrder | scripts/maint/practracker/includes.py:299-312 | the check passes exactly if no directory uses, through others, one that comes later; the last one need not be a key |
| Includes.SortedPasses | scripts/maint/practracker/includes.py:303-311 | the concatenated levels never trip the check on the closure of the original graph |
| SipHash.Hash | src/ext/csiphash.c:65-116 | `siphash24` is SipHash-2-4 over the zero-padded little-endian words with the length mod 256 in the top byte, for every message |
| SipHash.LastWord | src/ext/csiphash.c:91-107 | the fall-through switch builds the last padded word, for every remainder |
| SipHash.HalfRound | src/ext/csiphash.c:40-45 | `HALF_ROUND` on its four words |
| SipHash.DoubleRound | src/ext/csiphash.c:47-51 | `DOUBLE_ROUND` is two standard SipRounds |
| SipHash.DoubleRoundInjective | src/ext/csiphash.c:47-51 | different states stay different |
| SipHash.DoubleRoundSurjective | src/ext/csiphash.c:47-51 | every state is reached: with the line above, a bijection |
| SipHash.UnroundOfRound | src/ext/csiphash.c:40-51 | a round can be undone |
| SipHash.RoundOfUnround | src/ext/csiphash.c:40-51 | and undoing it is undone by the round |
| SipHash.Absorb | src/ext/csiphash.c:84-86 | one word is absorbed with two rounds |
| SipHash.Finish | src/ext/csiphash.c:109-115 | four more rounds and the final combination |
| Wire.Put | src/trunnel/ed25519_cert.c:545-551 | bytes are stored behind those that were, exactly if there is room for them; nothing outside the given space changes |
| Wire.Patch | src/trunnel/ed25519_cert.c:592-599 | the length field is written back, and nothing else changes |
| Wire.ReadU16 | src/trunnel/ed25519_cert.c:639-641 | two bytes are the encoding of a number exactly if it is read from them |
| Wire.ReadU32 | src/trunnel/ed25519_cert.c:2017-2019 | the same for four bytes |
| Wire.ListSettles | src/trunnel/ed25519_cert.c:2034-2046 | more input changes no result of a counted array but "truncated" |
| Wire.ListEncodes | src/trunnel/ed25519_cert.c:2034-2046 | parsed elements encode to the bytes they came from |
| Wire.ListReturns | src/trunnel/ed25519_cert.c:1947-1957 | encoded elements come back |
| Wire.ListFits | src/trunnel/ed25519_cert.c:1947-1957 | a list is encoded exactly if there is room for all of it |
| CertCodec.EncodeExtension | src/trunnel/ed25519_cert.c:521-623 | -1 for a failed check, -2 without room, -1 for a body that the length field cannot hold, else the length; writes the encoding with the true length, within its space |
| CertCodec.ParseExtension | src/trunnel/ed25519_cert.c:629-692 | the three-valued result and the object of the definition |
| CertCodec.ExtensionSettles | src/trunnel/ed25519_cert.c:629-692 | more input changes no result but "truncated" |
| CertCodec.ExtensionEncodes | src/trunnel/ed25519_cert.c:521-692 | a parsed extension passes its check and encodes to exactly the bytes consumed |
| CertCodec.ExtensionReturns | src/trunnel/ed25519_cert.c:521-692 | an encoded extension comes back with the true length and inactive fields reset |
| CertCodec.EncodeCert | src/trunnel/ed25519_cert.c:1893-1995 | the exact result for every certificate and every space, through the nested encoders; writes within its space, and the whole encoding on success |
| CertCodec.CertResultFits | src/trunnel/ed25519_cert.c:1846-1995 | with bodies that fit: the encoded length if there is that much room, else -2 |
| CertCodec.CertEncodedLen | src/trunnel/ed25519_cert.c:1846-1884 | the length of the encoding, or -1 for a failed check |
| CertCodec.ParseCert | src/trunnel/ed25519_cert.c:1999-2071 | the three-valued result and the object of the definition |
| CertCodec.CertSettles | src/trunnel/ed25519_cert.c:1999-2071 | more input changes no result but "truncated" |
| CertCodec.CertPrefix | src/trunnel/ed25519_cert.c:1999-2071 | every proper prefix of what was consumed is "truncated" |
| CertCodec.CertEncodes | src/trunnel/ed25519_cert.c:1893-2071 | a parsed certificate passes its check and encodes to exactly the bytes consumed |
| CertCodec.CertReturns | src/trunnel/ed25519_cert.c:1893-2071 | an encoded certificate comes back, with the extensions in canonical form |
| ExtendCodec.EncodeLinkSpecifier | src/trunnel/ed25519_cert.c:1328-1466 | as for extensions, with a length of one byte behind the type |
| ExtendCodec.ParseLinkSpecifier | src/trunnel/ed25519_cert.c:1472-1564 | the three-valued result and the object of the definition |
| ExtendCodec.LinkSpecifierSettles | src/trunnel/ed25519_cert.c:1472-1564 | more input changes no result but "truncated" |
| ExtendCodec.LinkSpecifierEncodes | src/trunnel/ed25519_cert.c:1328-1564 | a parsed link specifier passes its check and encodes to exactly the bytes consumed |
| ExtendCodec.LinkSpecifierReturns | src/trunnel/ed25519_cert.c:1328-1564 | an encoded link specifier comes back with the true length and inactive fields reset |
| ExtendCodec.EncodeCreate2 | src/trunnel/ed25519_cert.c:187-252 | -1, -2 or the length, and the encoding |
| ExtendCodec.ParseCreate2 | src/trunnel/ed25519_cert.c:258-290 | the three-valued result and the object of the definition |
| ExtendCodec.Create2Settles | src/trunnel/ed25519_cert.c:258-290 | more input changes no result but "truncated" |
| ExtendCodec.Create2Encodes | src/trunnel/ed25519_cert.c:187-290 | a parsed body encodes to exactly the bytes consumed |
| ExtendCodec.Create2Returns | src/trunnel/ed25519_cert.c:187-290 | an encoded body comes back |
| ExtendCodec.EncodeExtend2 | src/trunnel/ed25519_cert.c:2292-2359 | the exact result for every object and every space, through both nested encoders; writes within its space |
| ExtendCodec.Extend2ResultFits | src/trunnel/ed25519_cert.c:2260-2359 | with bodies that fit: the encoded length if there is that much room, else -2 |
| ExtendCodec.Extend2EncodedLen | src/trunnel/ed25519_cert.c:2260-2284 | the length of the encoding, or -1 for a failed check |
| ExtendCodec.ParseExtend2 | src/trunnel/ed25519_cert.c:2364-2408 | the three-valued result and the object of the definition |
| ExtendCodec.Extend2Settles | src/trunnel/ed25519_cert.c:2364-2408 | more input changes no result but "truncated" |
| ExtendCodec.Extend2Prefix | src/trunnel/ed25519_cert.c:2364-2408 | every proper prefix of what was consumed is "truncated" |
| ExtendCodec.Extend2Encodes | src/trunnel/ed25519_cert.c:2292-2408 | a parsed EXTEND2 body passes its check and encodes to exactly the bytes consumed |
| ExtendCodec.Extend2Returns | src/trunnel/ed25519_cert.c:2292-2408 | an encoded EXTEND2 body comes back, with the link specifiers in canonical form |
| SocksCodec.EncodeDomainName | src/trunnel/socks5.c:178-240 | -1, -2 or the length, and the encoding |
| SocksCodec.DomainNameEncodedLen | src/trunnel/socks5.c:164-176 | the length of the encoding, or -1 for a failed check |
| SocksCodec.ParseDomainName | src/trunnel/socks5.c:245-274 | the three-valued result and the object of the definition |
| SocksCodec.DomainNameSettles | src/trunnel/socks5.c:245-274 | more input changes no result but "truncated" |
| SocksCodec.DomainNameEncodes | src/trunnel/socks5.c:178-274 | a parsed name encodes to exactly the bytes consumed |
| SocksCodec.DomainNameReturns | src/trunnel/socks5.c:178-274 | an encoded name comes back |
| SocksCodec.NulUnique | src/trunnel/socks5.c:1376-1389 | a string ends at the first NUL byte and nowhere else |
| SocksCodec.EncodeSocks4 | src/trunnel/socks5.c:984-1337 | -1, -2 or the length, and the encoding, with a host name exactly for the addresses 0.0.0.1 to 0.0.0.255 |
| SocksCodec.Socks4EncodedLen | src/trunnel/socks5.c:687-976 | the length of the encoding, which is the space that `EncodeSocks4` needs, or -1 for a failed check |
| SocksCodec.ParseSocks4 | src/trunnel/socks5.c:1342-1671 | the three-valued result and the object of the definition |
| SocksCodec.Socks4Settles | src/trunnel/socks5.c:1342-1671 | more input changes no result but "truncated" |
| SocksCodec.Socks4Prefix | src/trunnel/socks5.c:1342-1671 | every proper prefix of what was consumed is "truncated" |
| SocksCodec.Socks4Encodes | src/trunnel/socks5.c:984-1671 | a parsed request passes its check and encodes to exactly the bytes consumed |
| SocksCodec.Socks4Returns | src/trunnel/socks5.c:984-1671 | an encoded request comes back, without a host name that was not in use |
| SocksCodec.EncodeSocks5 | src/trunnel/socks5.c:3287-3405 | -1, -2 or the length, and the encoding, through the nested encoder |
| SocksCodec.Socks5EncodedLen | src/trunnel/socks5.c:3235-3285 | the length of the encoding, through the nested one, or -1 for a failed check |
| SocksCodec.ParseSocks5 | src/trunnel/socks5.c:3410-3493 | the three-valued result and the object of the definition |
| SocksCodec.Socks5Settles | src/trunnel/socks5.c:3410-3493 | more input changes no result but "truncated" |
| SocksCodec.Socks5Prefix | src/trunnel/socks5.c:3410-3493 | every proper prefix of what was consumed is "truncated" |
| SocksCodec.Socks5Encodes | src/trunnel/socks5.c:3287-3493 | a parsed request passes its check and encodes to exactly the bytes consumed |
| SocksCodec.Socks5Returns | src/trunnel/socks5.c:3287-3493 | an encoded request comes back with the addresses that are not in use reset |
| SendmeCodec.EncodeSendme | src/trunnel/sendme_cell.c:205-314 | -1, -2 or the length; the length field is that of the digest, or 0 for version 0, whatever `data_len` says |
| SendmeCodec.SendmeEncodedLen | src/trunnel/sendme_cell.c:176-203 | the length of the encoding, or -1 for a failed check |
| SendmeCodec.ParseSendme | src/trunnel/sendme_cell.c:319-378 | the three-valued result and the object of the definition |
| SendmeCodec.SendmeReturns | src/trunnel/sendme_cell.c:234-364 | what was encoded is accepted exactly if the version is 1 and the digest has 16 or 20 bytes, and then comes back; everything else, and every cell of version 0, is refused with -1 |
| SendmeCodec.SendmeEncodes | src/trunnel/sendme_cell.c:234-364 | what was parsed encodes to the same bytes exactly if the version is 1 |
| SendmeCodec.SendmeSettles | src/trunnel/sendme_cell.c:319-378 | more input changes no result but "truncated" |
| SendmeCodec.SendmePrefix | src/trunnel/sendme_cell.c:319-378 | every proper prefix of what was consumed is "truncated" |

## Left out

- mmap, munmap, mprotect and madvise fail or succeed: they are taken to succeed, and junk and zero fill do not show.
- `malloc_brk` and `last_index`: only used to refuse wild pointers; `ifree` is modelled without its "too high" test.
- The re-entrant allocation of free-list nodes (`px`, `malloc_bytes(sizeof *px)` and `ifree(px)`): the nodes are fresh objects.
- The bucket slots share an array with the tags of the first directory page in the program; here they are a field of their own, and the first twelve indices are owned but never tagged.
- The order of pages on a bucket's list: the insertion compares with the successor of the insertion point, so no order is promised.
- `irealloc` but for the count of pages, `posix_memalign`, the pointer guard option, the recursion flag, the mutex, option parsing and statistics.
- The slots of a directory page are a sequence in the model of `struct pdinfo`, and the bitmap a sequence of words of 64 bits, instead of memory next to the struct.
- Chunks.Heap.IFree: the look-alikes that `Sane` leaves out, and `SaneExactly` lists: `ifree` accepts them and spoils its state.
- Chunks.Heap.OnlyLookAlikes: the "too high" test, which refuses some misread pointers, is not part of it.
- PageAllocator.Pages.FreePointer: guard pages and misread pointers with the tag FIRST, as above.
- PageAllocator.Pages.FreeMisread: what becomes of the free list after the marking, but for the pages that can be on it.
- Chunks.Heap.FreeBytes: addresses in a header or of a `struct pginfo`, for the same reason.
- Chunks.Session.Free: look-alikes that spoil the state, as above. The addresses of new mappings are free at the time of each call, not fixed in advance.
- PageAllocator.Pages.FreePointer: does not say which of several nodes the hints name afterwards, only that they are in the list.
- `HT_GROW` when both allocations fail: its result is ignored by its callers.
- HashTable.Table.Insert: loads for which the largest table holds fewer than four elements, where the scan may leave the table of primes, unless `GrowsWithin` holds; the same for `Replace` and `Run`.
- Floating-point rounding of the load, `ht_improve_hash`, `HT_CLEAR` and the find-or-insert macro.
- In the codecs: setters and getters, memory wiping, allocation failure, and array elements that are NULL. Objects are values that a parser fills field by field.
- Sibling generated codecs, which repeat the same shapes, and the SOCKS server replies and user/password messages.
- The file handling and printing of `practracker`, and `normalize_srcdir`.
- The global key of SipHash, and the unaligned fast path, which is compiled out.
- SLIST, SIMPLEQ and CIRCLEQ, and the invalidation of the links of removed tail queue entries.
