/**
 A whole transaction, from the structures down to the file: it works on the handle table, the
 membership index and the freemap copy-on-write, its pages go through the cache, the cache is flushed,
 and the superblock slot is written. Opening what a crash leaves finds all of it or none of it.
 */
module Transaction {
  import opened Pages
  import opened RadixTree
  import opened Superblock
  import opened Commit
  import opened DatabaseState
  import opened Recovery
  import HandlePages
  import HandleTable
  import HandleHistory
  import MembershipModel
  import MembershipIndex
  import MembershipHistory
  import MembershipPages
  import FreeMapPages
  import FreeMapSession
  import FreeMapTree
  import FreeMapRun
  import Cache = PageCache
  import CacheState
  import CacheRun
  import Lru
  import Spillway

  /** What a transaction is asked to do. */
  datatype Work = Work(handles: seq<HandleHistory.Op>, members: seq<MembershipHistory.Op>, pages: seq<FreeMapRun.Op>)

  /** How each operation ended. */
  datatype Log = Log(handles: seq<Result<()>>, members: seq<Result<()>>, pages: seq<FreeMapRun.Event>)

  // ----- the reference: each structure does what was asked, except where the allocator refused -----

  /** `st1` is `st0` after the work, as logged; whatever was not done was refused a page. */
  ghost predicate Did(st0: State, work: Work, log: Log, st1: State) {
    && |log.handles| == |work.handles| && |log.members| == |work.members|
    && (forall i | 0 <= i < |log.handles| :: log.handles[i].Ok? || log.handles[i] == Err(AllocFailed))
    && (forall i | 0 <= i < |log.members| :: log.members[i].Ok? || log.members[i] == Err(AllocFailed))
    && FreeMapRun.AllAllowed(st0.free, work.pages, log.pages)
    && st1 == State(HandleHistory.Replay(st0.handles, work.handles, log.handles), MembershipHistory.Replay(st0.members, work.members, log.members),
                    FreeMapRun.Replay(st0.free, log.pages))
  }

  /** How often the allocator refused. */
  ghost function Refused(log: Log): nat {
    Failures(log.handles) + Failures(log.members) + FreeMapRun.Refusals(log.pages)
  }

  // ----- one structure at a time -----

  /** The allocator hands out page ids that fit, and none the state uses. */
  ghost predicate Apart(pages: Store, supply: set<nat>, roots: Roots, d: Depths) {
    supply !! StatePages(pages, roots, d) && forall id | id in supply :: 0 < id < MembershipModel.INNER_ROOT_LIMIT
  }

  lemma SameOutside(p0: Store, p1: Store, A: set<nat>, Q: set<nat>)
    requires Wrote(p0, p1, A) && A !! Q && Q <= p0.Keys
    ensures SameBodies(p0, p1, Q)
  {
    hide Body;
  }

  /** Writing pages a state does not use leaves it alone. */
  lemma StateStays(p0: Store, p1: Store, A: set<nat>, roots: Roots, d: Depths, st: State)
    requires StateIs(p0, roots, d, st) && Wrote(p0, p1, A) && A !! StatePages(p0, roots, d)
    ensures StateIs(p1, roots, d, st) && StatePages(p1, roots, d) == StatePages(p0, roots, d)
  {
    hide StateIs, StatePages, SameBodies;
    StateStored(p0, roots, d, st);
    SameOutside(p0, p1, A, StatePages(p0, roots, d));
    StateKept(p0, p1, roots, d, st);
  }

  method WorkHandles(store: PageStore, table: HandleTable.HandleTable, roots: Roots, ops: seq<HandleHistory.Op>, ghost d: Depths, ghost st: State)
    returns (newRoots: Roots, done: seq<Result<()>>)
    requires StateIs(store.pages, roots, d, st) && Apart(store.pages, store.supply, roots, d) && d.handles == table.depth
    requires ops != [] ==> roots.handleTable != PAGE_ID_NONE
    modifies store, table
    ensures store.supply <= old(store.supply) && Wrote(old(store.pages), store.pages, old(store.supply) - store.supply)
    ensures newRoots == roots.(handleTable := newRoots.handleTable) && |done| == |ops|
    ensures store.refusals == old(store.refusals) + Failures(done)
    ensures forall i | 0 <= i < |done| :: done[i].Ok? || done[i] == Err(AllocFailed)
    ensures StateIs(store.pages, newRoots, d.(handles := table.depth), st.(handles := HandleHistory.Replay(st.handles, ops, done)))
    ensures StatePages(store.pages, newRoots, d.(handles := table.depth))
         <= old(StatePages(store.pages, roots, d)) + (old(store.supply) - store.supply)
  {
    hide Wrote, IndexIs, FreeIs, FreePages, MembershipIndex.OccupiesOf, HandleTable.Valid, HandleTable.Map, HandleTable.Occupies,
      HandleHistory.Follows, Accounted, HandleHistory.Replay, Failures;
    ghost var p0, s0 := store.pages, store.supply;
    newRoots, done := roots, [];
    assert s0 - s0 == {};
    WroteNone(p0, {});
    NoHandleOps(st.handles);
    if ops == [] {
      return;
    }
    var root, freed;
    ghost var versions, lost;
    root, done, freed, versions, lost := HandleHistory.Run(store, table, roots.handleTable, ops);
    HandleHistory.FollowsReplay(versions, ops, done);
    assert HandleHistory.Alive(store.pages, versions[|ops|]);
    HandleHistory.NotNone(store.pages, root, table.depth);
    StateStays(p0, store.pages, s0 - store.supply, roots, d, st);
    newRoots := roots.(handleTable := root);
  }

  lemma NoHandleOps(m: map<nat, HandlePages.HandleEntry>)
    ensures HandleHistory.Replay(m, [], []) == m && Failures([]) == 0
  {
  }

  method WorkMembers(store: PageStore, index: MembershipIndex.MembershipIndex, roots: Roots, ops: seq<MembershipHistory.Op>,
                     ghost d: Depths, ghost st: State)
    returns (newRoots: Roots, done: seq<Result<()>>)
    requires StateIs(store.pages, roots, d, st) && Apart(store.pages, store.supply, roots, d)
    requires d.members == index.outerDepth && index.outerDepth <= MembershipPages.MAX_DEPTH
    modifies store, index
    ensures store.supply <= old(store.supply) && Wrote(old(store.pages), store.pages, old(store.supply) - store.supply)
    ensures newRoots == roots.(membership := newRoots.membership) && |done| == |ops|
    ensures store.refusals == old(store.refusals) + Failures(done)
    ensures forall i | 0 <= i < |done| :: done[i].Ok? || done[i] == Err(AllocFailed)
    ensures StateIs(store.pages, newRoots, d.(members := index.outerDepth), st.(members := MembershipHistory.Replay(st.members, ops, done)))
    ensures StatePages(store.pages, newRoots, d.(members := index.outerDepth))
         <= old(StatePages(store.pages, roots, d)) + (old(store.supply) - store.supply)
  {
    hide Wrote, TableIs, TablePages, FreeIs, FreePages, MembershipIndex.ValidAt, MembershipIndex.IndexOf, MembershipIndex.OccupiesOf,
      MembershipHistory.Follows, Accounted, MembershipHistory.Replay, Failures;
    ghost var p0, s0 := store.pages, store.supply;
    var root, freed;
    ghost var versions, lost;
    root, done, freed, versions, lost := MembershipHistory.Run(store, index, roots.membership, ops);
    MembershipHistory.FollowsReplay(versions, ops, done);
    assert MembershipHistory.Alive(store.pages, versions[|ops|]);
    StateStays(p0, store.pages, s0 - store.supply, roots, d, st);
    newRoots := roots.(membership := root);
  }

  method WorkPages(store: PageStore, roots: Roots, ops: seq<FreeMapRun.Op>, ghost d: Depths, ghost st: State)
    returns (newRoots: Roots, events: seq<FreeMapRun.Event>)
    requires StateIs(store.pages, roots, d, st) && Apart(store.pages, store.supply, roots, d)
    requires ops != [] ==> roots.freemap != PAGE_ID_NONE
    requires AllStamped(store.hash, store.pages, FreePages(store.pages, roots.freemap, roots.freemapDepth))
    requires forall q | q in StatePages(store.pages, roots, d) :: q < PAGE_ID_NONE
    modifies store
    ensures store.supply <= old(store.supply) && Wrote(old(store.pages), store.pages, old(store.supply) - store.supply)
    ensures newRoots == roots.(freemap := newRoots.freemap, freemapDepth := newRoots.freemapDepth)
    ensures FreeMapRun.AllAllowed(st.free, ops, events) && store.refusals == old(store.refusals) + FreeMapRun.Refusals(events)
    ensures StateIs(store.pages, newRoots, d, st.(free := FreeMapRun.Replay(st.free, events)))
    ensures StatePages(store.pages, newRoots, d) <= old(StatePages(store.pages, roots, d)) + (old(store.supply) - store.supply)
  {
    hide Wrote, TableIs, TablePages, IndexIs, MembershipIndex.OccupiesOf, FreeMapRun.AllAllowed, FreeMapRun.Replay, Tree, Reach,
      FreeMapSession.InRange, FreeMapSession.FreeIds, FreeMapPages.Nodes, AllStamped, FreeMapSession.Session;
    ghost var p0, s0 := store.pages, store.supply;
    newRoots, events := roots, [];
    assert s0 - s0 == {};
    WroteNone(p0, {});
    FreeMapRun.NoneYet(st.free, ops);
    if ops == [] {
      assert ops[..0] == ops;
      return;
    }
    var tree := new FreeMapTree.FreeMapTree.FromRoots(store, roots.freemap, roots.freemapDepth);
    events := FreeMapRun.Run(tree, store, ops);
    assert {} + (s0 - store.supply) == s0 - store.supply;
    SessionEnds(store.hash, tree.start, store.pages, store.supply, tree.root, tree.depth, tree.pending, tree.owned);
    StateStays(p0, store.pages, s0 - store.supply, roots, d, st);
    newRoots := roots.(freemap := tree.root, freemapDepth := tree.depth);
  }

  lemma SessionEnds(hash: Hash, start: FreeMapSession.Start, pages: Store, supply: set<nat>, root: nat, depth: nat,
                    pending: seq<nat>, owned: set<nat>)
    requires FreeMapSession.Session(hash, start, pages, supply, root, depth, pending, owned)
    ensures 0 < root && depth <= FreeMapPages.MAX_DEPTH && Tree(FreeMapPages.SHAPE, FreeMapPages.Nodes(pages), root, depth)
    ensures FreeMapSession.InRange(pages, root, depth)
    ensures root in Reach(FreeMapPages.Nodes(pages), root, depth)
    ensures Reach(FreeMapPages.Nodes(pages), root, depth) <= FreeMapSession.Committed(start) + owned
  {
    hide Tree, Wrote, AllStamped, FreeMapPages.Nodes, FreeMapSession.InRange;
  }

  /** A state with its tree handles at hand and an allocator that stays clear of it. */
  ghost predicate Loaded(hash: Hash, pages: Store, supply: set<nat>, roots: Roots, d: Depths, st: State) {
    && StateIs(pages, roots, d, st) && Apart(pages, supply, roots, d) && d.members <= MembershipPages.MAX_DEPTH
    && AllStamped(hash, pages, FreePages(pages, roots.freemap, roots.freemapDepth))
    && forall q | q in StatePages(pages, roots, d) :: q < PAGE_ID_NONE
  }

  /** The work on all three structures: the new state is the old one with the work done, in the old state's pages and in pages drawn. */
  method WorkAll(store: PageStore, table: HandleTable.HandleTable, index: MembershipIndex.MembershipIndex, roots: Roots, work: Work,
                 ghost d: Depths, ghost st: State)
    returns (newRoots: Roots, log: Log, ghost d1: Depths, ghost st1: State)
    requires Loaded(store.hash, store.pages, store.supply, roots, d, st) && d == Depths(table.depth, index.outerDepth)
    requires work.handles != [] ==> roots.handleTable != PAGE_ID_NONE
    requires work.pages != [] ==> roots.freemap != PAGE_ID_NONE
    modifies store, table, index
    ensures store.supply <= old(store.supply) && Wrote(old(store.pages), store.pages, old(store.supply) - store.supply)
    ensures Did(st, work, log, st1) && StateIs(store.pages, newRoots, d1, st1) && store.refusals == old(store.refusals) + Refused(log)
    ensures StatePages(store.pages, newRoots, d1) <= old(StatePages(store.pages, roots, d)) + (old(store.supply) - store.supply)
    ensures newRoots == roots.(handleTable := newRoots.handleTable, membership := newRoots.membership,
                               freemap := newRoots.freemap, freemapDepth := newRoots.freemapDepth)
  {
    hide StateIs, StatePages, Wrote, HandleHistory.Replay, MembershipHistory.Replay, Failures, FreeMapRun.Refusals, FreeMapRun.AllAllowed,
      FreeMapRun.Replay, AllStamped, FreePages;
    ghost var p0, s0 := store.pages, store.supply;
    var r1, handles := WorkHandles(store, table, roots, work.handles, d, st);
    ghost var p1, s1, da := store.pages, store.supply, d.(handles := table.depth);
    ghost var sta := st.(handles := HandleHistory.Replay(st.handles, work.handles, handles));
    StillLoaded(store.hash, p0, s0, p1, s1, roots, d, st, r1, da, sta);
    var r2, members := WorkMembers(store, index, r1, work.members, da, sta);
    ghost var p2, s2, db := store.pages, store.supply, da.(members := index.outerDepth);
    ghost var stb := sta.(members := MembershipHistory.Replay(st.members, work.members, members));
    StillLoaded(store.hash, p1, s1, p2, s2, r1, da, sta, r2, db, stb);
    WroteTrans(p0, p1, p2, s0 - s1, s1 - s2, s0 - s2);
    var r3, events := WorkPages(store, r2, work.pages, db, stb);
    WroteTrans(p0, p2, store.pages, s0 - s2, s2 - store.supply, s0 - store.supply);
    newRoots, log := r3, Log(handles, members, events);
    d1, st1 := db, stb.(free := FreeMapRun.Replay(st.free, events));
  }

  /** Work that leaves the freemap alone leaves the rest of the supply clear of the new state, and the freemap stamped. */
  lemma StillLoaded(hash: Hash, p0: Store, s0: set<nat>, p1: Store, s1: set<nat>, roots: Roots, d: Depths, st: State,
                    roots1: Roots, d1: Depths, st1: State)
    requires Loaded(hash, p0, s0, roots, d, st) && s1 <= s0 && Wrote(p0, p1, s0 - s1)
    requires StateIs(p1, roots1, d1, st1) && StatePages(p1, roots1, d1) <= StatePages(p0, roots, d) + (s0 - s1)
    requires roots1.freemap == roots.freemap && roots1.freemapDepth == roots.freemapDepth
    ensures Apart(p1, s1, roots1, d1) && (forall q | q in StatePages(p1, roots1, d1) :: q < PAGE_ID_NONE)
    ensures AllStamped(hash, p1, FreePages(p1, roots1.freemap, roots1.freemapDepth))
  {
    hide TableIs, TablePages, IndexIs, FreeIs, FreePages, MembershipIndex.OccupiesOf, Stamped;
    StateStays(p0, p1, s0 - s1, roots, d, st);
    FreeStored(p0, roots.freemap, roots.freemapDepth, st.free);
    SameOutside(p0, p1, s0 - s1, FreePages(p0, roots.freemap, roots.freemapDepth));
    FreeKept(p0, p1, roots.freemap, roots.freemapDepth, st.free);
  }

  // ----- through the cache to the file -----

  /** Put one page into the cache, whatever was there before. */
  method StorePage(cache: Cache.PageCache, id: u64, buf: Image) returns (ok: bool)
    requires cache.Valid()
    modifies cache, cache.lru, cache.spillway
    ensures cache.Valid() && cache.disk == old(cache.disk) && cache.nextPageId == old(cache.nextPageId) && cache.maxPages == old(cache.maxPages)
    ensures cache.Unsaved() == old(cache.Unsaved()) + {id} && cache.spillway.maxBytes == old(cache.spillway.maxBytes)
    ensures ok ==> cache.Flat() == old(cache.Flat())[id := Body(buf)] && |cache.entries| <= cache.maxPages
    ensures !ok ==> cache.Full(CacheFull) || cache.Full(SpillwayFull)
  {
    hide CacheState.View, CacheState.Consistent, CacheState.Pending, Cache.Coherent, Body, Zeros, Cache.Refused, CacheState.Dirty,
      CacheState.SoundIds, Stamped, Cache.Blanked, Spillway.Bytes;
    hide Lru.LruIndex.Valid, Spillway.Spillway.Valid;
    var room := cache.ReissuePage(id);
    if room.Err? {
      return false;
    }
    var page := cache.GetMut(id);
    assert old(cache.Unsaved()) + {id} + {id} == old(cache.Unsaved()) + {id};
    CacheState.SizePut(cache.entries, id, CacheState.Entry(buf, true, cache.entries[id].needsStamp));
    cache.Write(id, buf);
    return true;
  }

  /** A page map with the pages `ids` replaced. */
  ghost function Overlay(flat: imap<nat, seq<byte>>, pages: Store, ids: set<nat>): imap<nat, seq<byte>> {
    imap id: nat :: if id in ids && id in pages then Body(pages[id]) else if id in flat then flat[id] else []
  }

  lemma OverlayNone(disk: seq<Image>, pages: Store)
    ensures Overlay(CacheState.View(map[], map[], disk), pages, {}) == CacheState.View(map[], map[], disk)
  {
    hide Body;
  }

  lemma OverlayMore(flat: imap<nat, seq<byte>>, pages: Store, ids: set<nat>, id: nat)
    requires id in pages
    ensures Overlay(flat, pages, ids)[id := Body(pages[id])] == Overlay(flat, pages, ids + {id})
  {
    hide Body;
  }

  /** A cache that fits its unsaved pages, and one that has no room, against the pages of a whole transaction. */
  lemma RoomFor(order: seq<nat>, e: CacheState.Entries, dc: nat, c: map<nat, seq<byte>>, disk: seq<Image>,
                maxPages: nat, maxBytes: nat, ids: set<nat>)
    requires Cache.Coherent(order, e, dc, c, disk) && CacheState.Pending(e, c) <= ids && Spillway.Bytes(|c|, PAGE_SIZE) <= maxBytes
    ensures |e| <= maxPages && CacheState.Pending(e, c) == ids ==> Cache.Fits(|ids|, maxPages, maxBytes)
    ensures |e| > maxPages && CacheState.Dirty(e) == e.Keys && (maxBytes == 0 || Spillway.Bytes(|c| + 1, PAGE_SIZE) > maxBytes) ==>
              !Cache.Fits(|ids|, maxPages, maxBytes)
  {
    hide CacheState.Consistent, CacheState.Dirty, CacheState.Pending, Lru.Members;
    Cache.PendingSize(order, e, dc, c, disk);
    Fewer(CacheState.Pending(e, c), ids);
    assert |e| == |e.Keys|;
  }

  /** Put the transaction's pages into a cache at rest: it succeeds exactly when cache and spillway together can hold them. */
  method StorePages(cache: Cache.PageCache, pages: Store, ids: set<nat>) returns (ok: bool)
    requires cache.Valid() && cache.Unsaved() == {} && cache.Flat() == CacheState.View(map[], map[], cache.disk)
    requires ids <= pages.Keys && forall id | id in ids :: id <= U64_MAX
    modifies cache, cache.lru, cache.spillway
    ensures cache.Valid() && cache.disk == old(cache.disk) && cache.nextPageId == old(cache.nextPageId) && cache.maxPages == old(cache.maxPages)
    ensures ok ==> cache.Unsaved() == ids && cache.Flat() == Overlay(old(cache.Flat()), pages, ids)
    ensures ok <==> Cache.Fits(|ids|, cache.maxPages, cache.spillway.maxBytes)
    ensures cache.spillway.maxBytes == old(cache.spillway.maxBytes)
  {
    hide Cache.PageCache.Full, Cache.Fits, CacheState.SoundIds, Spillway.Bytes, CacheState.View, CacheState.Consistent, CacheState.Pending,
      Cache.Coherent, Body, CacheState.Dirty, Overlay;
    hide Lru.LruIndex.Valid, Spillway.Spillway.Valid;
    ghost var flat := cache.Flat();
    OverlayNone(cache.disk, pages);
    var todo := ids;
    assert ids - todo == {};
    while todo != {}
      invariant cache.Valid() && cache.disk == old(cache.disk) && cache.nextPageId == old(cache.nextPageId) && todo <= ids
      invariant cache.maxPages == old(cache.maxPages) && cache.spillway.maxBytes == old(cache.spillway.maxBytes)
      invariant todo == ids || |cache.entries| <= cache.maxPages
      invariant cache.Unsaved() == ids - todo && cache.Flat() == Overlay(flat, pages, ids - todo)
      decreases |todo|
    {
      var id :| id in todo;
      OverlayMore(flat, pages, ids - todo, id);
      assert ids - todo + {id} == ids - (todo - {id});
      var stored := StorePage(cache, id, pages[id]);
      if !stored {
        NoRoomFor(cache, ids);
        return false;
      }
      todo := todo - {id};
    }
    assert ids - {} == ids;
    HasRoomFor(cache, ids);
    return true;
  }

  lemma HasRoomFor(cache: Cache.PageCache, ids: set<nat>)
    requires cache.Valid() && cache.Unsaved() == ids && (ids == {} || |cache.entries| <= cache.maxPages)
    ensures Cache.Fits(|ids|, cache.maxPages, cache.spillway.maxBytes)
  {
    hide Cache.Fits, Cache.Coherent, Spillway.Bytes, CacheState.Pending, Lru.LruIndex.Valid, Spillway.Spillway.Valid;
    WithinCap(cache);
    NothingFits(cache.maxPages, cache.spillway.maxBytes);
    RoomFor(cache.lru.order, cache.entries, cache.dirtyCount, cache.spillway.contents, cache.disk,
            cache.maxPages, cache.spillway.maxBytes, ids);
  }

  lemma NoRoomFor(cache: Cache.PageCache, ids: set<nat>)
    requires cache.Valid() && cache.Unsaved() <= ids && (cache.Full(CacheFull) || cache.Full(SpillwayFull))
    ensures !Cache.Fits(|ids|, cache.maxPages, cache.spillway.maxBytes)
  {
    hide Cache.Fits, Cache.Coherent, Spillway.Bytes, CacheState.Pending, Lru.LruIndex.Valid, Spillway.Spillway.Valid;
    WithinCap(cache);
    RoomFor(cache.lru.order, cache.entries, cache.dirtyCount, cache.spillway.contents, cache.disk,
            cache.maxPages, cache.spillway.maxBytes, ids);
  }

  lemma NothingFits(maxPages: nat, maxBytes: nat)
    ensures Cache.Fits(0, maxPages, maxBytes)
  {
  }

  lemma WithinCap(cache: Cache.PageCache)
    requires cache.Valid()
    ensures Spillway.Bytes(|cache.spillway.contents|, PAGE_SIZE) <= cache.spillway.maxBytes
  {
    hide Spillway.Bytes, Spillway.Stored, Cache.Coherent, Lru.LruIndex.Valid;
  }

  lemma Fewer(a: set<nat>, b: set<nat>)
    requires a <= b
    ensures |a| <= |b|
  {
    assert b == a + (b - a);
  }

  /** Every crash of the commit leaves a file that opens at the old state or the new, and at the new once the slot is written. */
  ghost predicate Atomic(hash: Hash, before: seq<Image>, n: nat, sb: Superblock, dirty: set<nat>, after: Store,
                         roots0: Roots, d0: Depths, st0: State, d1: Depths, st1: State)
  {
    n > 0 && forall disk: seq<Image> | CrashDisk(hash, before, disk, n, sb.txnCounter % n, sb, dirty, after) ::
      && (OpensAt(hash, disk, roots0, d0, st0) || OpensAt(hash, disk, sb.roots, d1, st1))
      && (disk[sb.txnCounter % n] == Serialize(hash, sb) ==> OpensAt(hash, disk, sb.roots, d1, st1))
  }

  /** Once the slot is written the file opens at the new state. */
  ghost predicate Completes(hash: Hash, disk: seq<Image>, n: nat, sb: Superblock, d1: Depths, st1: State) {
    0 < n <= |disk| && (NoImpostor(hash, disk, n) ==> OpensAt(hash, disk[sb.txnCounter % n := Serialize(hash, sb)], sb.roots, d1, st1))
  }

  /** The file a transaction starts from: it opens at `cur`, and would after a torn slot write. */
  ghost predicate Ground(hash: Hash, disk: seq<Image>, n: nat, w: nat, cur: Superblock, d: Depths) {
    && 2 <= n <= MAX_SUPERBLOCKS && n <= |disk| <= U64_MAX && cur.txnCounter < MAX_TXN_COUNTER
    && Guarded(SlotsOf(hash, disk[..n]), w) && SlotsOf(hash, disk[..n])[w] == Some(cur)
    && forall q | q in StatePages(DiskMap(disk), cur.roots, d) :: q >= n
  }

  /**
   A transaction, whole. Either it wrote more pages than cache and spillway can hold, and it is rolled
   back: the file and all the cache shows are as they were. Or it is flushed: the file
   then holds the old state with the work done, and a crash at any point before, during or after the
   slot write leaves one state or the other. `rest` gives the page count, the next handle and the
   names that go with the new roots.
   */
  method Transact(cache: Cache.PageCache, store: PageStore, table: HandleTable.HandleTable, index: MembershipIndex.MembershipIndex,
                  cur: Superblock, work: Work, rest: Roots, n: nat, ghost w: nat, ghost st0: State)
    returns (done: bool, sb: Superblock, log: Log, dirty: set<nat>, ghost d1: Depths, ghost st1: State)
    requires cache.Valid() && cache.Unsaved() == {} && store.pages == DiskMap(cache.disk) && store.hash == cache.hash
    requires Ground(cache.hash, cache.disk, n, w, cur, Depths(table.depth, index.outerDepth))
    requires Loaded(store.hash, store.pages, store.supply, cur.roots, Depths(table.depth, index.outerDepth), st0)
    requires forall id | id in store.supply :: id >= n
    requires work.handles != [] ==> cur.roots.handleTable != PAGE_ID_NONE
    requires work.pages != [] ==> cur.roots.freemap != PAGE_ID_NONE
    modifies cache, cache.lru, cache.spillway, store, table, index
    ensures cache.Valid() && cache.Unsaved() == {} && dirty <= old(store.supply) - store.supply
    ensures !done ==> cache.disk == old(cache.disk) && cache.Flat() == old(cache.Flat())
    ensures done <==> Cache.Fits(|dirty|, old(cache.maxPages), old(cache.spillway.maxBytes))
    ensures Did(st0, work, log, st1) && store.refusals == old(store.refusals) + Refused(log)
    ensures sb == cur.(txnCounter := cur.txnCounter + 1, roots := sb.roots)
    ensures sb.roots.totalPages == rest.totalPages && sb.roots.nextHandle == rest.nextHandle && sb.roots.namedRoots == rest.namedRoots
    ensures done ==> StateIs(DiskMap(cache.disk), sb.roots, d1, st1)
    ensures done ==> Atomic(cache.hash, old(cache.disk), n, sb, dirty, DiskMap(cache.disk),
                            cur.roots, old(Depths(table.depth, index.outerDepth)), st0, d1, st1)
    ensures done ==> Completes(cache.hash, cache.disk, n, sb, d1, st1)
  {
    hide Completes, StateIs, StatePages, Wrote, Did, Atomic, CacheState.Logical, CacheState.Consistent, CacheState.Pending, Cache.Coherent,
      Body, DiskMap,
      Cache.DiskGot, CacheState.Dirty, SlotsOf, AllStamped, FreePages, CrashDisk, OpensAt, Serialize, SameBodies, Lru.Members, Lru.NoDuplicates,
      Ground, Loaded, Overlay;
    hide Lru.LruIndex.Valid, Spillway.Spillway.Valid;
    ghost var before, p0, flat0, d0 := cache.disk, store.pages, cache.Flat(), Depths(table.depth, index.outerDepth);
    var s0 := store.supply;
    AtStart(cache.hash, before, s0, n, w, cur, d0, st0);
    CacheRun.AtRest(cache.lru.order, cache.entries, cache.dirtyCount, cache.spillway.contents, before);
    var trees;
    trees, log, d1, st1 := WorkAll(store, table, index, cur.roots, work, d0, st0);
    var roots := trees.(totalPages := rest.totalPages, nextHandle := rest.nextHandle, namedRoots := rest.namedRoots);
    OnlyTrees(store.pages, trees, roots, d1, st1);
    sb := cur.(txnCounter := cur.txnCounter + 1, roots := roots);
    dirty := set id | id in s0 - store.supply && id in store.pages;
    done := StorePages(cache, store.pages, dirty);
    if !done {
      cache.Rollback(|cache.disk|);
      RolledBack(before, flat0, cache.Flat());
      return;
    }
    ghost var e, c := cache.entries, cache.spillway.contents;
    var _ := cache.Flush();
    Flushed(cache.hash, e, c, before, s0, cur.roots, d0, st0, cache.disk, dirty, store.pages, store.supply, roots, d1, st1, n);
    AllCrashes(cache.hash, before, cache.disk, n, w, cur, sb, dirty, s0, d0, st0, d1, st1);
    WholeCommit(cache.hash, e, c, before, cache.disk, n, w, cur, sb, dirty, d0, st0, d1, st1);
  }

  /** A commit that is not interrupted is one of the outcomes. */
  lemma WholeCommit(hash: Hash, e: CacheState.Entries, c: map<nat, seq<byte>>, before: seq<Image>, after: seq<Image>, n: nat, w: nat,
                    cur: Superblock, sb: Superblock, dirty: set<nat>, d0: Depths, st0: State, d1: Depths, st1: State)
    requires Ground(hash, before, n, w, cur, d0) && Cache.DiskGot(hash, e, c, before, after, dirty) && forall q | q in dirty :: q >= n
    requires Atomic(hash, before, n, sb, dirty, DiskMap(after), cur.roots, d0, st0, d1, st1)
    ensures Completes(hash, after, n, sb, d1, st1)
  {
    hide StateIs, StatePages, Guarded, OpensAt, Serialize, Deserialize, Cache.Outgoing;
    var k := sb.txnCounter % n;
    var disk := after[k := Serialize(hash, sb)];
    if NoImpostor(hash, after, n) {
      assert NoImpostor(hash, disk, n);
      assert CrashDisk(hash, before, disk, n, k, sb, dirty, DiskMap(after));
    }
  }

  /** What a state is does not depend on the page count, the next handle or the names. */
  lemma OnlyTrees(pages: Store, trees: Roots, roots: Roots, d: Depths, st: State)
    requires roots == trees.(totalPages := roots.totalPages, nextHandle := roots.nextHandle, namedRoots := roots.namedRoots)
    ensures StateIs(pages, roots, d, st) == StateIs(pages, trees, d, st) && StatePages(pages, roots, d) == StatePages(pages, trees, d)
  {
  }

  lemma AtStart(hash: Hash, disk: seq<Image>, supply: set<nat>, n: nat, w: nat, cur: Superblock, d: Depths, st: State)
    requires Ground(hash, disk, n, w, cur, d) && Loaded(hash, DiskMap(disk), supply, cur.roots, d, st)
    ensures n >= 2 && cur.txnCounter + 1 <= U64_MAX && forall id | id in supply :: id <= U64_MAX
    ensures forall q | q in StatePages(DiskMap(disk), cur.roots, d) :: q >= n
  {
    hide StateIs, StatePages, SlotsOf, Guarded, AllStamped;
  }

  lemma RolledBack(disk: seq<Image>, flat0: imap<nat, seq<byte>>, flat: imap<nat, seq<byte>>)
    requires flat0 == CacheState.View(map[], map[], disk)
    requires forall id: nat :: id in flat && flat[id] == if id < |disk| then flat0[id] else Body(Zeros())
    ensures flat == flat0 && CacheState.Resized(disk, |disk|) == disk
  {
    hide Body;
    CacheRun.Equal(flat, flat0);
  }

  /** After the flush the file holds the new state, in the pages written and in old pages left alone. */
  lemma Flushed(hash: Hash, e: CacheState.Entries, c: map<nat, seq<byte>>, before: seq<Image>, s0: set<nat>,
                roots0: Roots, d0: Depths, st0: State, disk: seq<Image>, dirty: set<nat>, p1: Store, s1: set<nat>,
                roots1: Roots, d1: Depths, st1: State, n: nat)
    requires Loaded(hash, DiskMap(before), s0, roots0, d0, st0) && s1 <= s0 && Wrote(DiskMap(before), p1, s0 - s1)
    requires dirty == (set id | id in s0 - s1 && id in p1) && StateIs(p1, roots1, d1, st1)
    requires StatePages(p1, roots1, d1) <= StatePages(DiskMap(before), roots0, d0) + (s0 - s1)
    requires Cache.DiskGot(hash, e, c, before, disk, dirty)
    requires CacheState.View(map[], map[], disk) == Overlay(CacheState.View(map[], map[], before), p1, dirty)
    requires (forall q | q in StatePages(DiskMap(before), roots0, d0) :: q >= n) && forall id | id in s0 :: id >= n
    ensures StateIs(DiskMap(disk), roots1, d1, st1)
    ensures forall q | q in StatePages(DiskMap(disk), roots1, d1) ::
              q >= n && (q in dirty || (q in DiskMap(disk) && q < |before| && DiskMap(disk)[q] == before[q]))
  {
    hide StateIs, StatePages, Body, AllStamped, FreePages, Cache.Outgoing;
    StateStored(DiskMap(before), roots0, d0, st0);
    StateStored(p1, roots1, d1, st1);
    forall q | q in StatePages(p1, roots1, d1) ensures q in DiskMap(disk) && Body(p1[q]) == Body(DiskMap(disk)[q]) {
      assert CacheState.View(map[], map[], disk)[q] == Overlay(CacheState.View(map[], map[], before), p1, dirty)[q];
    }
    StateKept(p1, DiskMap(disk), roots1, d1, st1);
  }

  lemma AllCrashes(hash: Hash, before: seq<Image>, after: seq<Image>, n: nat, w: nat, cur: Superblock, sb: Superblock, dirty: set<nat>,
                   s0: set<nat>, d0: Depths, st0: State, d1: Depths, st1: State)
    requires Ground(hash, before, n, w, cur, d0) && Loaded(hash, DiskMap(before), s0, cur.roots, d0, st0)
    requires dirty <= s0 && (forall id | id in s0 :: id >= n) && sb == cur.(txnCounter := cur.txnCounter + 1, roots := sb.roots)
    requires StateIs(DiskMap(after), sb.roots, d1, st1)
    requires forall q | q in StatePages(DiskMap(after), sb.roots, d1) ::
               q >= n && (q in dirty || (q in DiskMap(after) && q < |before| && DiskMap(after)[q] == before[q]))
    ensures Atomic(hash, before, n, sb, dirty, DiskMap(after), cur.roots, d0, st0, d1, st1)
  {
    hide StateIs, StatePages, Guarded, AllStamped, OpensAt, Serialize, DiskMap, Deserialize;
    Unguarded(SlotsOf(hash, before[..n]), w);
    SlotAt(hash, before, n, w);
    ReadsOnly(hash, before[w]);
    forall disk: seq<Image> | CrashDisk(hash, before, disk, n, sb.txnCounter % n, sb, dirty, DiskMap(after))
      ensures OpensAt(hash, disk, cur.roots, d0, st0) || OpensAt(hash, disk, sb.roots, d1, st1)
      ensures disk[sb.txnCounter % n] == Serialize(hash, sb) ==> OpensAt(hash, disk, sb.roots, d1, st1)
    {
      CrashSlot(hash, before, disk, n, sb.txnCounter % n, sb, dirty, DiskMap(after));
      CommitAtomic(hash, before, disk, n, w, sb, dirty, DiskMap(after), d0, st0, d1, st1);
    }
  }

  // ----- an instance: one handle put into the empty table of a two-slot file -----

  function TwoSlotRoots(): Roots {
    Roots(2, PAGE_ID_NONE, 3, 0, seq(NAMED_ROOTS_SIZE, _ => 0), PAGE_ID_NONE, 0)
  }

  function SlotBlock(counter: u64): Superblock {
    Superblock(0, counter, PAGE_SIZE, 2, TwoSlotRoots())
  }

  function SmallFile(hash: Hash): seq<Image> {
    [Serialize(hash, SlotBlock(2)), Serialize(hash, SlotBlock(1)), Stamp(hash, HandlePages.NewPage(HandlePages.FLAG_LEAF))]
  }

  lemma SmallFileSlots(hash: Hash)
    ensures SlotsOf(hash, SmallFile(hash)[..2]) == [Some(SlotBlock(2)), Some(SlotBlock(1))]
    ensures Guarded(SlotsOf(hash, SmallFile(hash)[..2]), 0)
  {
    hide Serialize, Deserialize, TwoSlotRoots, Guarded;
    RoundTrip(hash, SlotBlock(2));
    RoundTrip(hash, SlotBlock(1));
    SlotAt(hash, SmallFile(hash), 2, 0);
    SlotAt(hash, SmallFile(hash), 2, 1);
    assert 2 % 2 == 0;
    SettledSafe(SlotsOf(hash, SmallFile(hash)[..2]), 0);
  }

  lemma SmallFileTable(hash: Hash)
    ensures TableIs(DiskMap(SmallFile(hash)), 2, 0, map[]) && TablePages(DiskMap(SmallFile(hash)), 2, 0) == {2}
  {
    hide Serialize, Stamp;
    var pages := DiskMap(SmallFile(hash));
    assert pages[2] == Stamp(hash, HandlePages.NewPage(HandlePages.FLAG_LEAF));
    HandlePages.NewPageNode(hash, pages, 2, 0);
    hide EmptyNode;
    EmptyNodeIsTree(HandlePages.SHAPE, HandlePages.Nodes(pages), 2, 0);
  }

  /** A file and a cache that meet what Transact asks for, and what comes of it. */
  method FirstHandle(hash: Hash, handle: u64, entry: HandlePages.HandleEntry) returns (done: bool, sb: Superblock, cache: Cache.PageCache, ok: bool)
    ensures fresh(cache) && cache.Valid() && cache.hash == hash
    ensures !done ==> cache.disk == SmallFile(hash)
    ensures done ==> exists d: Depths, st: State ::
                       && st.handles == (if ok then HandleTable.Bind(map[], handle, entry) else map[])
                       && Completes(hash, cache.disk, 2, sb, d, st)
  {
    hide Serialize, Deserialize, Stamp, Guarded, Cache.Coherent, Lru.LruIndex.Valid, Spillway.Spillway.Valid, Atomic, Completes, Zeros,
      HandlePages.NewPage, FreeMapRun.AllAllowed, FreeMapRun.Replay, CacheState.Pending, CacheState.View;
    SmallFileSlots(hash);
    SmallFileTable(hash);
    hide TableIs, TablePages;
    var disk := SmallFile(hash);
    cache := new Cache.PageCache(disk, 4 * PAGE_SIZE, 0, Cache.LruTail, hash);
    var store := new PageStore(map q: nat | q < |disk| :: disk[q], {3, 4}, hash);
    var table := new HandleTable.HandleTable();
    var index := new MembershipIndex.MembershipIndex();
    var log, dirty;
    ghost var d1, st1;
    done, sb, log, dirty, d1, st1 := Transact(cache, store, table, index, SlotBlock(2), Work([HandleHistory.Put(handle, entry)], [], []),
                                              TwoSlotRoots(), 2, 0, State(map[], map[], iset{}));
    ok := log.handles[0].Ok?;
    OneHandle(handle, entry, log.handles);
  }

  lemma OneHandle(handle: u64, entry: HandlePages.HandleEntry, done: seq<Result<()>>)
    requires |done| == 1
    ensures HandleHistory.Replay(map[], [HandleHistory.Put(handle, entry)], done)
         == if done[0].Ok? then HandleTable.Bind(map[], handle, entry) else map[]
  {
  }
}
