# Chisel, verified

A Dafny model of the Chisel storage engine: its copy-on-write radix trees, its page cache, its
byte-level page formats and its commit. Pages are 8192 bytes throughout; nothing is modelled above
the bytes except as a decoding of them.

The model follows the engine's layers.

* **Trees.** `RadixTree` is the theory the three trees share: `Get` gives a tree its meaning, `Reach`
  its pages, and heaps that agree on `Reach` agree on `Get`. The handle table (`HandlePages`,
  `HandleTable`) is a map from u64 handles to entries; the membership index (`MembershipPages`,
  `RadixU64`, `MembershipModel`, `MembershipIndex`) is a map from tag to a set of handles, kept in two
  levels of radix; the freemap (`FreeMap`, `FreeMapPages`, `FreeMapSession`, `FreeMapScan`,
  `FreeMapTree`) is a set of page ids, edited in place within a session (`RadixPath` is the theory of
  top-down in-place descent). All three account for every page they draw and supersede.
* **Cache.** `Lru`, `Spillway`, `CacheState` and `PageCache`: whatever is evicted, spilled, reloaded,
  drained, flushed or rolled back, the cache shows one flat page map.
* **Containers.** `Overflow`, `DataPage` and the freemap bitmap, as byte buffers.
* **Whole runs.** `HandleHistory`, `MembershipHistory`, `FreeMapRun`, `CacheRun` and `Commit` carry the
  step contracts over arbitrary sequences of operations, refusals, rollbacks, torn writes and crashes.
* **The database.** `DatabaseState` says what a superblock's roots stand for, `Recovery` that a commit is
  atomic, and `Transaction` puts it together: work on the three trees, the cache, the flush, the slot
  write and a crash anywhere.

Conventions. The checksum is an arbitrary function `hash` from bytes to u64; nothing depends on which.
The allocator closure a mutation is given is a set of ids (`PageStore.supply`): it hands them out in any
order, it fails when none is left, and it may fail at any other call too, whether or not it failed
before. It counts its calls and its refusals: an operation that reports an allocation failure was refused,
once, one that succeeds was not, and each asks for a bounded number of pages. The page cache starts from any file and any next page id, so also from a file with a tail past
the committed pages, as a crash leaves it. Where the code checks what it reads
(the membership and freemap trees, chains, slotted pages, the spillway, the superblock) the operations
are defined on arbitrary pages, and what they promise of well-formed ones is guarded.

## Properties that do not hold as stated

* A freemap scan from hint 2^64 - 1 never finds that id, because the end of the last child's range
  saturates. `FreeMapTree.FreeMapTree.AllocateFirst` states that its answer is right if and only if the
  hint is smaller or that id is not free; `FreeMapLastId.MissedLastId` is the run that shows it.
* The header check of a data page admits a gap between the directory and the free space. On such a page
  an inserted value is looked up in the wrong place: `DataPage.ReadsBackExactly` states that inserts read
  back if and only if there is no gap, and `DataPage.GapPage` is a page with one.
* A torn superblock write is meant always to leave a valid sibling. It does from the first whole commit
  on (`Commit.CommitsDurable`). Before that, a database with two slots whose first two commits are both
  torn no longer opens: `Commit.CreatedDurable` states that this is the only case, and exactly which
  states would survive one more torn commit; `Commit.TwoTornCommits` shows it. The comment at src/transaction/lifecycle.rs:152-156 says that a commit
  never touches the previously active slot; the first commit after creation does (`Commit.FirstCommit`:
  counter N goes to slot 0, which holds counter N - 1). The fallback that src/transaction/recovery.rs:14-24
  promises for that commit holds, and with three slots or more it holds for any number of torn retries.
* A cache miss makes room before it inserts. `PageCache.PageCache.LoadPage` states that it leaves the cache
  within its cap if and only if it held fewer pages than that before, and one entry above it otherwise;
  `PageCache.MissOverCap` is a one-page cache left with two entries. A successful allocation always ends
  within the cap.

## Model

| member | source | states |
|---|---|---|
| `Pages.U64Decodes` | src/page.rs:252-266 | decoding eight little-endian bytes gives back the integer that was encoded |
| `Pages.U64Encodes` | src/page.rs:252-266 | encoding a decoded integer gives the bytes back, so different bytes decode to different integers |
| `Pages.LittleEndian` | src/page.rs:252-266 | byte i of an encoded u64 is its i-th byte from the low end |
| `Pages.SlotsAfterWrite` | src/membership_index.rs:32-40 | writing one of the 1021 slots of a page changes that slot, no other slot and no header byte |
| `Pages.StampVerifies` | src/page.rs:252-266 | stamping makes the checksum verify and leaves every body byte alone |
| `Pages.StampedIff` | src/page.rs:252-266 | a page verifies if and only if stamping it changes nothing, so for each body exactly one checksum field is accepted |
| `Pages.DamageShows` | src/page.rs:252-266 | a page damaged outside its checksum field verifies if and only if its body hashes to the same value |
| `RadixTree.Frame` | src/handle_table.rs:33-39 | heaps that agree on the pages a tree occupies agree on its structure, its pages and its left spine |
| `RadixTree.FrameGet` | src/handle_table.rs:33-39 | heaps that agree on the pages a tree occupies agree on the value of every key |
| `RadixTree.DigitIsDiv` | src/handle_table.rs:889-897 | the digit and remainder the theory descends by are the machine's quotient and remainder |
| `RadixTree.Saturated` | src/handle_table.rs:601-612 | the capacity loop computes the true capacity of a level, capped at 2^64 - 1, and never 0 |
| `RadixTree.DigitInPage` | src/handle_table.rs:674-781 | at every level of a tree of legal depth the child index of an in-range key is a slot of the page, although capacity saturates |
| `RadixTree.InReach` | src/handle_table.rs:800-883 | a key below the saturated capacity, or any u64 key once it saturates, is below the true capacity |
| `RadixTree.Relink` | src/handle_table.rs:674-781 | replacing one child of a node, in a copy or in place, gives a tree on exactly the old pages less the old child's plus the new one's |
| `RadixTree.CowPath` | src/handle_table.rs:674-781 | one level of an insert: with the child rebuilt, the copy of the node is a rebuilt tree with one key changed and every page accounted for |
| `RadixTree.AfterDelete` | src/handle_table.rs:426-520 | one level of a delete, where the copy is drawn after the child was rebuilt |
| `RadixTree.GrowRoot` | src/handle_table.rs:635-656 | a new root above the old one stands for the same values, occupies one page more and supersedes none |
| `RadixItems.ItemsList` | src/membership_index.rs:501-538 | the walk of a tree lists every live key once, in ascending order, with its value |
| `RadixItems.KidPrefix` | src/membership_index.rs:556-604 | listing with a limit, child by child, is taking a prefix of the full listing |
| `HandlePages.DepthBound` | src/handle_table.rs:82-96 | depth 6 is the first whose true capacity exceeds u64, and no span below it saturates |
| `HandlePages.BodyDecides` | src/page_cache.rs:156-165 | what a handle-table page means is decided by its body bytes, which are what the cache preserves |
| `HandlePages.EntryRoundTrip` | src/handle_table.rs:952-976 | a handle entry (page, slot, flags, tag, spare) reads back as written |
| `HandlePages.EntryLayout` | src/handle_table.rs:963-976 | the five fields of an entry lie at offsets 0, 8, 10, 11 and 15 of its sixteen bytes |
| `HandlePages.FlagCodes` | src/handle_table.rs:130-148 | flag byte 1 reads as live, 2 as overflow, every other value as deleted |
| `HandlePages.EntriesAfterWrite` | src/handle_table.rs:969-976 | writing one of the 510 entries of a leaf changes that entry only |
| `HandleTable.MapAfterPut` | src/handle_table.rs:275-371 | storing an entry at a key is binding it in the map, a deleted entry unbinds |
| `HandleTable.Persists` | src/handle_table.rs:33-39 | a root keeps its pages and its map whatever is written to pages it does not occupy |
| `HandleTable.BodiesDecide` | src/page_cache.rs:156-165 | page spaces with equal bodies on a table's pages hold the same table, so it may be kept in the cache |
| `HandleTable.ItemsAreMap` | src/handle_table.rs:904-950 | the listing of a table is exactly its map, in ascending order |
| `HandleTable.HandleTable.CreateRoot` | src/handle_table.rs:191-212 | a new table is valid, empty, and occupies exactly the page drawn; it fails only if the allocator refused |
| `HandleTable.HandleTable.Grow` | src/handle_table.rs:635-656 | one level more with the same values, or a refusal that changes nothing |
| `HandleTable.HandleTable.InsertRecursive` | src/handle_table.rs:674-781 | rebuilds the path to a handle on drawn pages only: one value changed, pages conserved, every drawn page stamped; it asks for at most two pages a level and fails exactly if one was refused |
| `HandleTable.HandleTable.Insert` | src/handle_table.rs:275-371 | insert is map update for every u64 handle, growing as needed; it fails exactly if the allocator refused it a page, of at most 19 it asks for; reach before plus drawn equals reach after plus freed, disjointly and without duplicates; on a refusal at any depth the depth field is restored; either way the old root keeps its map |
| `HandleTable.HandleTable.DeleteRecursive` | src/handle_table.rs:426-520 | nothing at all if the handle is absent, otherwise the path rebuilt with a tombstone and every page accounted for |
| `HandleTable.HandleTable.Delete` | src/handle_table.rs:389-419 | returns the previous entry and removes exactly that handle; same root and same pages when absent; it fails exactly if the allocator refused; the old root keeps its map in every case |
| `HandleTable.HandleTable.FindLeaf` | src/handle_table.rs:800-883 | the leaf and slot that hold a handle, none where nothing is stored; on any pages it succeeds exactly if every interior page on the way is there and is one |
| `HandleTable.HandleTable.Lookup` | src/handle_table.rs:219-241 | lookup is map lookup for every u64 handle, 2^64 - 1 included, and never returns a tombstone; on any pages it succeeds exactly if the way can be passed and the leaf is there, and then answers what the pages hold |
| `HandleTable.HandleTable.RecoverDepth` | src/handle_table.rs:553-585 | walking child 0 returns exactly the depth of any valid table, terminates on any pages, cycles included, and counts handle-table pages only |
| `HandleTable.HandleTable.IterLive` | src/handle_table.rs:523-530 | lists each bound handle once, in ascending order, with its entry |
| `HandleHistory.Apply` | src/handle_table.rs:275-419 | one insert or delete on a run, applied, or refused a page once, with its page accounting |
| `HandleHistory.LastWord` | src/handle_table.rs:275-419 | after a run a handle is bound if and only if the last operation on it that went through was a put of a live entry, and to that entry |
| `HandleHistory.LeftAlone` | src/handle_table.rs:275-419 | a handle no operation on which went through is as it was |
| `HandleHistory.FollowsReplay` | src/handle_table.rs:275-419 | the last version of a run is the reference replayed over it |
| `HandleHistory.StillAlive` | src/handle_table.rs:33-45 | writing pages that no version occupies leaves every version standing for its own map |
| `HandleHistory.Run` | src/handle_table.rs:33-45 | over any sequence of inserts and deletes, any of them refused a page and later ones not, as many as the allocator refused: every version ever produced still stands for its map at its depth; every page is in use, freed once, or lost to a refusal; and on any disk that differs from the first only in pages the run drew, torn or not, the first version still stands for its map |
| `MembershipPages.DepthBound` | src/membership_index.rs:174-188 | depth 6 is the first whose true capacity exceeds u64, and no span below it saturates |
| `MembershipPages.BodyDecides` | src/page_cache.rs:156-165 | what a membership page means is decided by its body bytes |
| `MembershipPages.WriteSlotNode` | src/membership_index.rs:37-40 | writing a slot of a leaf or an interior page changes exactly that slot of the decoded node |
| `RadixU64.RadixU64.InsertRecursive` | src/membership_index.rs:324-400 | on any pages: writes only drawn pages and queues only membership pages; on a tree: one value changed, pages conserved |
| `RadixU64.RadixU64.Insert` | src/membership_index.rs:297-319 | growth and descent store one value, conserve pages, and fail on a well-formed tree exactly if the allocator refused a page |
| `RadixU64.RadixU64.DeleteRecursive` | src/membership_index.rs:426-484 | an absent key costs nothing; otherwise the path is rebuilt with 0 at the key and pages are conserved |
| `RadixU64.RadixU64.Delete` | src/membership_index.rs:404-424 | returns the previous value and clears exactly that key; on a well-formed tree it fails exactly if the allocator refused |
| `RadixU64.RadixU64.FindLeaf` | src/membership_index.rs:190-242 | the leaf and slot that hold a key; on any pages it fails exactly if an interior page on the way is missing or of the wrong type |
| `RadixU64.RadixU64.Lookup` | src/membership_index.rs:245-257 | the value at any u64 key, 0 if absent; on any pages it succeeds exactly if every page on the way is there and of the right type, and then answers what they hold |
| `RadixU64.RadixU64.Iter` | src/membership_index.rs:492-538 | lists each present key once, in ascending order, with its value |
| `RadixU64.RadixU64.IterBounded` | src/membership_index.rs:542-604 | the prefix of the full listing of length min(limit, size) |
| `RadixU64.RadixU64.AnyPresent` | src/membership_index.rs:609-644 | true exactly when the full listing is not empty |
| `RadixU64.EmptyIffAbsent` | src/membership_index.rs:609-614 | the listing is empty exactly when every key reads 0 |
| `RadixU64.RadixU64.RecoverDepth` | src/membership_index.rs:649-676 | returns exactly the depth of any tree with a populated left spine, and terminates on any pages |
| `RadixU64.FreeSubtree` | src/membership_index.rs:106-142 | queues every page of a tree once; on any pages queues only membership pages and terminates |
| `MembershipModel.PackRoundTrip` | src/membership_index.rs:685-696 | packing depth and root into one u64 is lossless, and only the absent pair packs to 0 |
| `MembershipModel.UnpackRoundTrip` | src/membership_index.rs:694-696 | every u64 unpacks to a pair that packs to it |
| `MembershipModel.ReplacedIndex` | src/membership_index.rs:724-764 | replacing the inner tree of one tag changes the index at that tag only |
| `MembershipModel.ReplacedConserves` | src/membership_index.rs:724-824 | page conservation of the outer and inner rebuilds adds up to conservation for the whole index |
| `MembershipModel.IndexFrame` | src/membership_index.rs:724-884 | an older index root keeps its pages, its validity and its map whatever is written to other pages |
| `MembershipIndex.MembershipIndex.Insert` | src/membership_index.rs:724-764 | adds exactly the pair (tag, handle), other tags untouched, inner growth repacked; pages conserved across both levels; on a refusal the depth field and the old index are unchanged; on any pages only membership pages are queued; it reports an allocation failure exactly if the allocator refused |
| `MembershipIndex.MembershipIndex.Remove` | src/membership_index.rs:769-824 | removes exactly the pair; the last member drops the tag and frees its whole inner tree; absent pairs cost nothing; on a refusal nothing changes; it reports an allocation failure exactly if the allocator refused |
| `MembershipIndex.MembershipIndex.Contains` | src/membership_index.rs:827-853 | membership of the pair in the index |
| `MembershipIndex.MembershipIndex.HandlesForTag` | src/membership_index.rs:855-884 | exactly the handles of a tag, each once, in ascending order |
| `MembershipIndex.IndexPersists` | src/membership_index.rs:724-824 | an older index root still stands for its own map after writes to pages it does not occupy |
| `MembershipHistory.Apply` | src/membership_index.rs:724-824 | one addition or removal on a run, applied or refused a page, with its page accounting |
| `MembershipHistory.LastWord` | src/membership_index.rs:724-824 | after a run a pair is there if and only if the last operation on it that went through added it |
| `MembershipHistory.LeftAlone` | src/membership_index.rs:724-824 | a pair no operation on which went through is as it was |
| `MembershipHistory.NoEmptyTag` | src/membership_index.rs:769-824 | no run leaves a tag without handles |
| `MembershipHistory.StillAlive` | src/membership_index.rs:724-824 | writing pages that no version occupies leaves every version standing for its own index |
| `MembershipHistory.Run` | src/membership_index.rs:724-824 | over any sequence of additions and removals, any of them refused a page and later ones not: every version ever produced still stands for its index at its depth; every page of both levels is in use, freed once, or lost to a refusal; and on any disk that differs from the first only in pages the run drew, the first version still stands for its index |
| `FreeMap.BitAfterSet` | src/freemap.rs:137-142 | setting a bit of a byte changes that bit only |
| `FreeMap.BitAfterClear` | src/freemap.rs:184-189 | clearing a bit of a byte changes that bit only |
| `FreeMap.TrailingZerosLowest` | src/freemap.rs:156-174 | the number of trailing zeros is the lowest set bit |
| `FreeMap.BitAfterWrite` | src/freemap.rs:124-203 | marking or clearing an id changes that bit of the bitmap, no other, and no header byte |
| `FreeMap.MarkFree` | src/freemap.rs:137-142 | the in-place mark, which ignores ids past the leaf |
| `FreeMap.MarkUsed` | src/freemap.rs:184-189 | the in-place clear, which ignores ids past the leaf |
| `FreeMap.FirstFreeBitFrom` | src/freemap.rs:156-174 | the least free bit at or above the bound, none exactly when there is none |
| `FreeMapPages.DepthBound` | src/freemap_tree.rs:53-60 | depth 5 is the first whose true capacity exceeds u64, and no span below it saturates |
| `FreeMapPages.BodyDecides` | src/page_cache.rs:156-165 | what a freemap page means is decided by its body bytes |
| `FreeMapPages.EditNode` | src/freemap_tree.rs:432-435 | a leaf operation changes exactly its bit of the decoded leaf, and leaves the page stamped |
| `RadixPath.Swap` | src/freemap_tree.rs:361-421 | swapping the subtree at the end of a path swaps its pages in the whole tree and keeps the path |
| `RadixPath.SwapPut` | src/freemap_tree.rs:432-435 | a value stored at the rest of a key in the subtree is stored at the key in the whole tree, and nothing else changes |
| `RadixPath.PathStep` | src/freemap_tree.rs:361-421 | one step of the top-down descent: the whole tree keeps its meaning, one page is exchanged or added, the path leads to the new page |
| `RadixPath.PathLeaf` | src/freemap_tree.rs:432-435 | the edit at the end of the path changes exactly one key of the whole tree |
| `FreeMapSession.SessionRoot` | src/freemap_tree.rs:352-358 | copying the committed root keeps the session invariant and the set |
| `FreeMapSession.SessionStep` | src/freemap_tree.rs:361-421 | every step of a descent that copies or creates a child keeps the session invariant and the set |
| `FreeMapSession.SessionStay` | src/freemap_tree.rs:458-469 | entering a page the session owns changes nothing |
| `FreeMapSession.SessionLeaf` | src/freemap_tree.rs:432-435 | the leaf edit keeps the session invariant and changes one id of the set |
| `FreeMapSession.SessionGrow` | src/freemap_tree.rs:284-302 | growth keeps the session invariant and the set |
| `FreeMapSession.CommittedIntact` | src/freemap_tree.rs:439-478 | in any session state no committed page has changed a byte, the committed root stands for the committed set, the queue is exactly the committed pages no longer in the tree, each once, and every page the session made is in the tree |
| `FreeMapTree.FreeMapTree.FromRoots` | src/freemap_tree.rs:141-148 | opens a session on a committed tree with nothing owned and nothing queued |
| `FreeMapTree.FreeMapTree.Create` | src/freemap_tree.rs:153-171 | a new freemap is one owned leaf and an empty set |
| `FreeMapTree.FreeMapTree.Grow` | src/freemap_tree.rs:284-302 | one level more unless the tree already covers u64, same set, or a refusal that changes nothing |
| `FreeMapTree.FreeMapTree.CowNode` | src/freemap_tree.rs:458-478 | a page the session owns is returned as it is; a committed one is type-checked, copied and queued; it fails exactly for a refusal, a missing page or the wrong type |
| `FreeMapTree.FreeMapTree.CowChild` | src/freemap_tree.rs:383-420 | one level of the descent, on any pages writing only the session's own; a refusal leaves the state as it was |
| `FreeMapTree.FreeMapTree.CowDescend` | src/freemap_tree.rs:316-437 | changes exactly one id of the set; a refusal at any step leaves the set unchanged and the session invariant intact; only session pages are written; an allocation failure is reported exactly if the allocator refused |
| `FreeMapTree.FreeMapTree.MarkFreeGrowing` | src/freemap_tree.rs:528-548 | adds exactly its id for every u64, growing as needed; on a session it fails exactly if the allocator refused, and then leaves the set unchanged |
| `FreeMapTree.FreeMapTree.FindLeaf` | src/freemap_tree.rs:226-261 | the leaf whose bit decides an id, none where the subtree is absent; on any pages it succeeds exactly if the depth is legal and every page on the way is there and of the right type |
| `FreeMapTree.FreeMapTree.IsFree` | src/freemap_tree.rs:271-276 | membership in the set; on any pages the bit the way leads to, or an error exactly if it cannot be passed |
| `FreeMapScan.KidFound` | src/freemap_tree.rs:605-620 | the first hit in the first child that has one is the lowest of all |
| `FreeMapTree.FreeMapTree.ScanNode` | src/freemap_tree.rs:585-621 | the lowest free id at or above the bound beneath a node, despite saturating bases; always none from 2^64 - 1 above the leaves |
| `FreeMapTree.FreeMapTree.ScanFrom` | src/freemap_tree.rs:576-579 | the lowest free id at or above the bound in the set, none exactly when there is none, for every bound below 2^64 - 1 |
| `FreeMapTree.FreeMapTree.AllocateFirst` | src/freemap_tree.rs:559-571 | removes and returns the lowest free id at or above the hint and moves the hint there; a refusal or none changes nothing; the answer is right if and only if the hint is below 2^64 - 1 or that id is not free |
| `FreeMapTree.FreeMapTree.CollectReachable` | src/freemap_tree.rs:649-676 | whenever it succeeds, exactly the pages reachable, on any pages |
| `FreeMapTree.FreeMapTree.ReachablePages` | src/freemap_tree.rs:637-647 | exactly the pages the tree occupies, the empty set for an unmaterialized tree |
| `FreeMapLastId.PathTree` | src/freemap_tree.rs:605-615 | for any id there is a well-formed, stamped tree in which it alone is free |
| `FreeMapLastId.MissedLastId` | src/freemap_tree.rs:610-615 | with 2^64 - 1 alone free, the tree says it is free, a scan from just below finds it and a scan from it finds nothing |
| `FreeMapRun.Run` | src/freemap_tree.rs:439-571 | over any sequence of frees and allocations in a session, any of them refused a page and later ones not, the tree follows the set step by step, every refusal is the allocator's, only session pages are written and the session invariant holds |
| `FreeMapRun.LastEvent` | src/freemap_tree.rs:528-571 | after a run an id is free if and only if the last event about it freed it, or there was none and it was free before |
| `Lru.WithoutAt` | src/lru.rs:187-214 | taking an element out of a duplicate-free order |
| `Lru.Unlinked` | src/lru.rs:187-214 | patching the two neighbours and the ends takes a node out of the list |
| `Lru.LruIndex.Contains` | src/lru.rs:92-94 | membership in the sequence |
| `Lru.LruIndex.Unlink` | src/lru.rs:187-214 | the list without the id, its map entry left behind |
| `Lru.LruIndex.PushFront` | src/lru.rs:100-128 | move to front, or insert at the front, of a duplicate-free sequence |
| `Lru.LruIndex.PushBack` | src/lru.rs:138-161 | move to back, or insert at the back |
| `Lru.LruIndex.Remove` | src/lru.rs:164-171 | delete, and whether it was there |
| `Lru.LruIndex.IterLruToMru` | src/lru.rs:175-231 | the back-pointer walk terminates and yields the sequence exactly, in reverse |
| `Spillway.SlotsApart` | src/spillway.rs:462-496 | different slots occupy different bytes |
| `Spillway.SlotRoundTrip` | src/spillway.rs:462-530 | a slot reads back the id, checksum and payload written to it |
| `Spillway.Spillway.Spill` | src/spillway.rs:329-361 | map update, in place for a resident page; refused exactly when a new slot would pass the cap, and then nothing changes |
| `Spillway.Spillway.Rehydrate` | src/spillway.rs:426-446 | the payload of a resident page; on any bytes, never a payload whose id or checksum does not match |
| `Spillway.Spillway.Forget` | src/spillway.rs:407-409 | drops one page of the map |
| `Spillway.Spillway.ForgetAbove` | src/spillway.rs:416-418 | keeps exactly the pages below the bound |
| `Spillway.Spillway.Truncate` | src/spillway.rs:366-379 | empties the map and the backing |
| `Spillway.Spillway.DrainBatch` | src/spillway.rs:394-400 | min(batch, size) distinct resident ids |
| `CacheState.SettledBody` | src/page_cache.rs:156-165 | settling a deferred stamp makes the checksum verify and changes no body byte |
| `CacheState.SpillDirty` | src/page_cache.rs:1507-1552 | moving a dirty entry, settled, to the spillway leaves the flat map and the unsaved pages as they were |
| `CacheState.SoundSpill` | src/page_cache.rs:1507-1552 | a page that could be read back before it was spilled, or before it was settled in place, still can: what is spilled carries the stamp that was owed |
| `CacheState.SoundFlush` | src/page_cache.rs:579-635 | writing a settled entry out loses no page that could be read back |
| `CacheState.SoundAtRest` | src/page_cache.rs:551-789 | with nothing unsaved the pages that can be read back are those whose image on disk verifies |
| `CacheState.LoadSpilled` | src/page_cache.rs:1285-1321 | bringing a spilled page back leaves them as they were |
| `CacheState.FlushEntry` | src/page_cache.rs:579-635 | writing an entry out, settled, and marking it clean leaves the flat map as it was |
| `CacheState.OnlyClean` | src/page_cache.rs:832-864 | without dirty entries and spillway the cache shows the disk |
| `CacheState.Cut` | src/page_cache.rs:907-934 | cutting cache, spillway and file at any n keeps what lies below and forgets what lies above |
| `PageCache.PageCache.constructor` | src/page_cache.rs:297-323 | an empty cache over a file, its cap at least one page |
| `PageCache.PageCache.EvictCleanToCap` | src/page_cache.rs:1430-1453 | drops exactly the coldest clean entries until the cache fits or only dirty ones are left; nothing visible changes |
| `PageCache.PageCache.SpillTail` | src/page_cache.rs:1483-1561 | spills exactly the coldest entry, its settled image and no other: a page that owed its stamp is stamped in the spillway; on refusal, which means the spillway has no slot left, the entry, its place and the count are restored |
| `PageCache.PageCache.MaybeEvict` | src/page_cache.rs:1474-1563 | exactly at the cap or at the old size if that was smaller; the coldest clean entries go first, then dirty ones from the cold end, moved whole and settled; refused only with every entry dirty and no spillway, or a full one, and then nothing is lost; a dirty page at the hot end is never evicted |
| `PageCache.PageCache.LoadPage` | src/page_cache.rs:1279-1387 | brings in the spilled copy, or the disk page if and only if its checksum verifies, without changing the flat map; fails exactly for lack of room, an id past the file, or a checksum that does not verify; leaves min(size before, cap) + 1 entries, so within the cap if and only if below it before |
| `PageCache.MissOverCap` | src/page_cache.rs:1279-1387 | a one-page cache that holds one page and then misses ends with two |
| `PageCache.PageCache.Get` | src/page_cache.rs:337-350 | a successful read returns the flat map's body for that id and makes it most recent, and read from disk it verified; a page that can be read back fails only for lack of room; nothing visible changes |
| `PageCache.PageCache.GetMut` | src/page_cache.rs:364-383 | the page is cached and dirty, counted once, its owed stamp still owed; the flat map and the pages that can be read back are unchanged |
| `PageCache.PageCache.GetMutDeferredStamp` | src/page_cache.rs:395-401 | as GetMut, with the stamp owed, so the page can be read back whatever is written |
| `PageCache.PageCache.Write` | src/page_cache.rs:364-383 | writing through the reference changes exactly that page of the flat map; it can be read back exactly if the bytes are stamped or the stamp is owed |
| `PageCache.PageCache.CopyPage` | src/page_cache.rs:1256-1260 | the destination holds the source's body, all else unchanged; on refusal nothing visible changes |
| `PageCache.PageCache.SetNextPageId` | src/page_cache.rs:1142-1144 | moves the next page id anywhere, below the file's end too; nothing visible changes |
| `PageCache.PageCache.IsDirty` | src/page_cache.rs:1241-1247 | true exactly for pages with unsaved content, cached or spilled |
| `PageCache.PageCache.NewPage` | src/page_cache.rs:498-512 | the next id, zeroed and unsaved, over whatever the file holds there; on success within the cap and still cached; refused only with more unsaved pages than the cap, and then the page stays allocated |
| `PageCache.PageCache.ReissuePage` | src/page_cache.rs:1074-1133 | any id zeroed, any cached or spilled copy gone, the dirty count right; refused only with more unsaved pages than the cap |
| `PageCache.PageCache.FlushOne` | src/page_cache.rs:579-635 | one dirty page written, settled, and clean |
| `PageCache.PageCache.DrainOne` | src/page_cache.rs:677-764 | one spilled page copied to the file and kept as a clean entry at the end the policy names |
| `PageCache.PageCache.Flush` | src/page_cache.rs:551-789 | the disk equals the flat map, every unsaved page was written exactly once with its stamp settled, no other page of the file changed, nothing is dirty or spilled, nothing visible changed; every page that could be read back verifies on disk; after a drain the cache is within its cap; the drain terminates on the shrinking resident set for any batch order |
| `PageCache.SavedVerifies` | src/page_cache.rs:590-594 | a page that was stamped or deferred before a flush verifies when read back |
| `PageCache.PageCache.DiscardAllDirty` | src/page_cache.rs:832-864 | exactly the clean entries remain, the spillway is empty, the cache shows the disk |
| `PageCache.PageCache.Truncate` | src/page_cache.rs:907-934 | for any n, everything at or above n is gone from cache, spillway and file, and the next page id is the smaller of n and what it was |
| `PageCache.PageCache.Rollback` | src/page_cache.rs:820-934 | for any n, every id below n reads the disk, and nothing dirty, spilled, cached or allocated at or above n survives |
| `CacheRun.LastStore` | src/page_cache.rs:337-401 | in the reference a page holds what the last event that touched it left there: the bytes stored, the bytes of the page copied, zeros, or what a rollback restored |
| `CacheRun.NeverTouched` | src/page_cache.rs:337-401 | in the reference a page nothing touched is as it was |
| `CacheRun.BackToSave` | src/page_cache.rs:820-934 | in the reference a rollback restores the pages of the last flush below its length, whatever was written since |
| `CacheRun.Apply` | src/page_cache.rs:337-1260 | one operation on the cache records itself with its own arguments or a failure, and cache and file follow the reference; it fails only for lack of room, a page past the file or a checksum that does not verify, and on pages that can be read back only for lack of room; allocation succeeds whenever unsaved pages lie below the next id |
| `CacheRun.Run` | src/page_cache.rs:337-1563 | over any run of reads, writes, allocations, reissues, copies, flushes and rollbacks, event i is what operation i asked for or a failure, every successful read returned what the reference held at that moment, cache and file end as the reference says, and every page last written stamped or with its stamp deferred can be read back |
| `CacheRun.Abandon` | src/page_cache.rs:820-934 | any transaction rolled back to n pages before its flush leaves the pages below n exactly as it found them and zeros above, on any file; with a file of at most n pages the flat map is unchanged |
| `CacheRun.ReadBack` | src/page_cache.rs:385-401 | a page written stamped or with its stamp deferred, and not touched again, is read after the next flush with the bytes written, whatever was evicted, spilled or drained in between |
| `Overflow.ChainPageReads` | src/overflow.rs:106-126 | a chain page reads back its length, next pointer and payload, and verifies |
| `Overflow.ChainDistinct` | src/overflow.rs:153-338 | no page occurs twice in a complete chain, on any page graph |
| `Overflow.ChainUnique` | src/overflow.rs:153-338 | there is at most one complete chain from a page |
| `Overflow.Write` | src/overflow.rs:83-129 | a chain on exactly the drawn pages that stores the value, every page stamped; a refusal writes drawn pages only |
| `Overflow.Read` | src/overflow.rs:153-263 | on any page graph it terminates; it succeeds exactly on a complete chain of the number of pages its length needs, within the ceiling, and returns that many bytes of their payload |
| `Overflow.CollectChainPages` | src/overflow.rs:278-338 | on any page graph it terminates; it returns exactly the complete chain if that is no longer than its length needs |
| `Overflow.WithinCeiling` | src/overflow.rs:186-207 | a written value passes the length ceiling |
| `Overflow.RoundTrip` | src/overflow.rs:83-338 | what was written reads back, and its pages are collected, each once |
| `DataPage.ValidateHeader` | src/data_page.rs:132-158 | an accepted header is ordered: directory, free space, payloads, checksum |
| `DataPage.ReadSlotEntry` | src/data_page.rs:318-343 | an accepted slot lies within the page body |
| `DataPage.OnlyLive` | src/data_page.rs:223-233 | a slot reads as something only if it is live, below the count, and on a data page |
| `DataPage.InitPage` | src/data_page.rs:70-85 | the in-place initialisation |
| `DataPage.EmptyLists` | src/data_page.rs:70-85 | an initialised page lists no values and has the whole body free |
| `DataPage.Insert` | src/data_page.rs:180-210 | on a page that lists values: succeeds exactly when 6 + length fits, returns the old count, and then the page lists one value more; otherwise no byte changes |
| `DataPage.ListsMore` | src/data_page.rs:180-210 | an insert disturbs no earlier slot or payload, and payloads never overlap the directory or the checksum |
| `DataPage.ListsRead` | src/data_page.rs:223-233 | a page that lists values reads value i from slot i and nothing from other slots |
| `DataPage.Fill` | src/data_page.rs:70-233 | after any sequence of inserts from empty, every accepted value reads back from its slot |
| `DataPage.IterLive` | src/data_page.rs:284-301 | exactly the listed values, in slot order |
| `DataPage.ReadsBackExactly` | src/data_page.rs:152-156 | on a header-valid page with room, inserts read back if and only if the directory is flush against the free space |
| `DataPage.GapPage` | src/data_page.rs:152-156 | a header-valid page on which they do not |
| `Superblock.NextTxnCounter` | src/superblock/mod.rs:96-102 | one more, refused exactly before leaving the readable range |
| `Superblock.RoundTrip` | src/superblock/mod.rs:417-740 | every superblock in the readable range reads back as written |
| `Superblock.ReadsExactly` | src/superblock/mod.rs:355-420 | a page reads as a superblock if and only if its checksum verifies, the superblock is in the readable range, the page carries its head byte for byte, and there is no crypto header |
| `Superblock.OtherPagesFail` | src/transaction/recovery.rs:199-203 | no page with another type tag passes for a superblock |
| `Commit.Select` | src/superblock/mod.rs:758-763 | the valid slot with the highest counter, the last on a tie, none exactly when none validates; its checksum verifies and it carries the superblock returned |
| `Commit.TornSlot` | src/superblock/mod.rs:355-420 | a slot whose checksum does not verify never wins, whatever else it holds |
| `Commit.SettledStep` | src/transaction/commit.rs:211 | once the winner sits at its counter modulo N, a commit writes another slot, and whole or torn leaves it so |
| `Commit.CommitsDurable` | src/transaction/commit.rs:39-258 | from there, over any sequence of commits of which any may be torn, the file opens at the last whole one and would survive one more torn commit |
| `Commit.CreatedDurable` | src/transaction/recovery.rs:71-107 | a created database opens at its last whole commit, if and only if it has three slots or its first two commits are not both torn; and exactly when it would survive one more torn commit |
| `Commit.CreatedSafe` | src/transaction/recovery.rs:14-24 | the first commit overwrites the winner, and if it is torn slot 1 still names the same state |
| `Commit.Exposed` | src/transaction/recovery.rs:71-107 | with two slots, a torn first commit leaves a file that one more torn commit destroys |
| `Commit.FirstCommit` | src/transaction/lifecycle.rs:152-156 | the first commit after creation overwrites the winner's own slot; whole, the file is settled; torn, slot 1 takes over |
| `Commit.TwoTornCommits` | src/transaction/recovery.rs:71-107 | two slots and two torn first commits leave no valid slot |
| `Commit.RunsEnd` | src/superblock/mod.rs:96-102 | every sequence of attempts has an outcome while the counter range lasts |
| `Commit.CrashSelects` | src/transaction/commit.rs:39-258 | from any state that survives a torn slot write, whether settled, just created or after torn first commits: on any disk a crash inside a commit may leave, the file opens, at the old roots or the new superblock, and at the new one whenever its slot was written |
| `DatabaseState.StateStored` | src/transaction/recovery.rs:678-700 | the pages a state occupies are pages of its file |
| `DatabaseState.StateKept` | src/handle_table.rs:33-39 | handle table, membership index and freemap depend on nothing but the bodies of the pages they occupy |
| `Recovery.CommitAtomic` | src/transaction/commit.rs:39-258 | on any disk a crash inside a commit may leave, opening finds the handle table, membership index and freemap of the state before or of the state after, never a mixture, and the state after whenever the slot was written |
| `Recovery.MidFlush` | src/page_cache.rs:551-789 | at any point of a flush a state on none of the unsaved pages is as it was |
| `Recovery.Open` | src/transaction/recovery.rs:209-330 | selects the winner among the first sixteen pages, whose checksum verifies, and recovers the depths of its handle table and membership index |
| `Transaction.WorkAll` | src/transaction/commit.rs:39-258 | any work on the three trees gives a state that is the old one with the work done, in the old state's pages and pages drawn; as many operations were refused as the allocator refused |
| `Transaction.StorePages` | src/page_cache.rs:1074-1133 | the drawn pages put into the cache replace exactly those pages of the flat map; it succeeds if and only if cache and spillway together can hold them |
| `Transaction.Transact` | src/transaction/commit.rs:39-258 | a whole transaction is flushed if and only if its pages fit cache and spillway: the file then holds the new state, every crash leaves a file that opens at the old state or the new, and the finished commit opens at the new; otherwise file and flat map are as they were; an operation not done was refused by the allocator |
| `Transaction.FirstHandle` | src/transaction/commit.rs:39-258 | a file with a table, and a transaction that puts a handle into it, meet what Transact asks for |

## Left out

- HandleTable.HandleTable.Insert: asks for a well-formed table, because the handle table does not check page types on its way down; what it does to misread bytes is not modelled. The same holds for Delete, and for IterLive.
- FreeMapTree.FreeMapTree.AllocateFirst: on a corrupt tree whose ids run past 2^64 - 1 the code's addition of base and bit would overflow; the model reports a corrupt page there.
- PageCache.PageCache.NewPage: asks that the next page id has no unsaved content, where the code would count a dirty page twice, and that the id does not overflow; CacheRun.Apply shows that it keeps the first whenever writes stay below the next id.
- Overflow.Read: the branch for no bytes remaining cannot be reached before the page limit and is not in the model; the second index check of the freemap descent (src/freemap_tree.rs:380-382) is likewise replaced by the proof that it cannot fail.
- Recovery.CommitAtomic: takes as given that a torn slot, or a torn data page in the probed range, does not carry a valid checksum and magic, and that a completed sync means the flushed pages are on disk.
- Transaction.Transact: a transaction that writes a handle table or a freemap starts from one that exists; the pages of a tree reach the cache as they are at its end, not write by write; freemap pages are taken to be stamped, and the page count, next handle and names of the new superblock are the caller's.
- Recovery.Open: opening also refuses a file shorter than the superblock's page count, checks format versions and resets the next page id; these are not part of it.
- Superblock.RoundTrip: plaintext databases only; the named-root table is kept as raw bytes, and a slot with a crypto header is read as no plaintext superblock.
- PageCache.SavedVerifies: the debug assertions that every data page leaves the cache stamped are the caller's side of this and are not modelled.
- Encryption: sealing, key slots, `rekey.rs`, and the 8232-byte stride.
- The spillway's file backing, its lazy opening and its sidecar file; the model opens a memory backing with the cache. A spillway write error after the slot was recorded is an I/O failure and ends the run.
- Files, locks, permissions, fault injection and read-only mode: the disk is a sequence of pages.
- Transactions above the cache: savepoints, recycling of pages within a transaction, slot packing, named roots, the freemap's persist and orphan sweep, defragmentation.
- `handles_for_tag_bounded` (a prefix of HandlesForTag), `used_space`, `free_space`, `discard`, setters and counters: only easy members.
- Bindings, benchmarks and the public API layer.
