/**
 PageCache: bounded write-back cache over the page file, with a recency list and a spillway for
 dirty pages that no longer fit. Whatever it evicts, spills, reloads or drains, it shows one flat
 page map, `Flat`.
 */
module PageCache {
  import opened Pages
  import opened CacheState
  import Lru
  import Spillway

  datatype DrainInsertion = LruTail | Mru

  ghost predicate Coherent(order: seq<nat>, e: Entries, dirtyCount: nat, c: map<nat, seq<byte>>, disk: seq<Image>) {
    && Lru.Members(order) == e.Keys && dirtyCount == |Dirty(e)|
    && Consistent(e, c, disk)
  }

  class PageCache {
    var disk: seq<Image>
    var entries: Entries
    var dirtyCount: nat
    var nextPageId: u64
    var maxPages: nat
    var drainInsertion: DrainInsertion
    const lru: Lru.LruIndex
    const spillway: Spillway.Spillway
    const hash: Hash

    /**
     dirtyCount counts the dirty entries, the recency list holds exactly the cached ids, cached
     and spilled ids are disjoint, a deferred stamp implies dirty, clean entries equal the disk.
     */
    ghost predicate Valid()
      reads this, lru, spillway
    {
      && lru.Valid() && spillway.Valid() && spillway.payloadSize == PAGE_SIZE
      && Coherent(lru.order, entries, dirtyCount, spillway.contents, disk) && 1 <= maxPages
    }

    /** The page map the cache shows. */
    ghost function Flat(): imap<nat, seq<byte>>
      reads this, spillway
    {
      View(entries, spillway.contents, disk)
    }

    /** Pages whose content is not on disk yet. */
    ghost function Unsaved(): set<nat>
      reads this, spillway
    {
      Pending(entries, spillway.contents)
    }

    /** Pages that can be read back without a checksum error. */
    ghost function Sounds(): iset<nat>
      reads this, spillway
    {
      SoundIds(hash, entries, spillway.contents, disk)
    }

    /** There is no room: more dirty pages than the cap, and no spillway, or one without a free slot. */
    ghost predicate Full(error: Error)
      reads this, spillway
    {
      && |entries| > maxPages && Dirty(entries) == entries.Keys && |Unsaved()| > maxPages
      && (|| (error == CacheFull && spillway.maxBytes == 0)
          || (error == SpillwayFull && spillway.maxBytes > 0 && Spillway.Bytes(|spillway.contents| + 1, PAGE_SIZE) > spillway.maxBytes))
    }

    /** Nothing a user of the cache can see has changed. */
    twostate predicate Quiet()
      reads this, spillway
    {
      && Flat() == old(Flat()) && Unsaved() == old(Unsaved()) && Sounds() == old(Sounds())
      && disk == old(disk) && nextPageId == old(nextPageId) && maxPages == old(maxPages)
      && spillway.maxBytes == old(spillway.maxBytes) && drainInsertion == old(drainInsertion)
    }

    constructor (disk: seq<Image>, cacheMaxBytes: nat, spillwayMaxBytes: nat, drainInsertion: DrainInsertion, hash: Hash)
      requires |disk| <= U64_MAX
      ensures Valid() && this.disk == disk && nextPageId == |disk| && entries == map[] && Unsaved() == {}
      ensures maxPages == if cacheMaxBytes < PAGE_SIZE then 1 else cacheMaxBytes / PAGE_SIZE
      ensures fresh(lru) && fresh(spillway) && this.hash == hash && spillway.maxBytes == spillwayMaxBytes
    {
      this.disk, this.entries, this.dirtyCount, this.nextPageId := disk, map[], 0, |disk|;
      this.maxPages := if cacheMaxBytes / PAGE_SIZE < 1 then 1 else cacheMaxBytes / PAGE_SIZE;
      this.drainInsertion, this.hash := drainInsertion, hash;
      this.lru := new Lru.LruIndex();
      this.spillway := new Spillway.Spillway(spillwayMaxBytes, PAGE_SIZE, hash);
    }

    /** The first clean id of a walk, at position `k`. */
    method FindClean(walk: seq<nat>) returns (r: Option<nat>, ghost k: nat)
      ensures r.Some? ==> r.value in entries && !entries[r.value].dirty && k < |walk| && walk[k] == r.value
      ensures r.Some? ==> forall j | 0 <= j < k && walk[j] in entries :: entries[walk[j]].dirty
      ensures r.None? ==> forall id | id in walk && id in entries :: entries[id].dirty
    {
      k := 0;
      for i := 0 to |walk|
        invariant forall j | 0 <= j < i && walk[j] in entries :: entries[walk[j]].dirty
      {
        if walk[i] in entries && !entries[walk[i]].dirty {
          return Some(walk[i]), i;
        }
      }
      return None, 0;
    }

    /** Drop one clean entry. */
    method DropClean(id: nat)
      requires Valid() && id in entries && !entries[id].dirty
      modifies this, lru
      ensures Valid() && Quiet() && Dirty(entries) == old(Dirty(entries))
      ensures entries == old(entries) - {id} && |entries| == |old(entries)| - 1
      ensures HeadKept(old(Dirty(entries)), old(lru.order), lru.order) && lru.order == Lru.Without(old(lru.order), id)
    {
      hide Consistent, View, Dirty, Coherent, Pending, Lru.Without, Lru.Members, Lru.LruIndex.Valid, Spillway.Spillway.Valid, SoundIds, HeadKept;
      CoherentEvict(hash, lru.order, entries, dirtyCount, spillway.contents, disk, id);
      entries := entries - {id};
      var _ := lru.Remove(id);
    }

    /** Drop clean entries, least recently used first, until the cache fits or only dirty ones are left. */
    method EvictCleanToCap()
      requires Valid()
      modifies this, lru
      ensures Valid() && Quiet() && Dirty(entries) == old(Dirty(entries))
      ensures |entries| <= maxPages || Dirty(entries) == entries.Keys
      ensures forall id | id in entries :: id in old(entries) && entries[id] == old(entries)[id]
      ensures |old(entries)| <= maxPages ==> entries == old(entries) && lru.order == old(lru.order)
      ensures Min(|old(entries)|, maxPages) <= |entries| <= |old(entries)|
      ensures HeadKept(old(Dirty(entries)), old(lru.order), lru.order)
      ensures lru.order == Trim(old(lru.order), old(Dirty(entries)), Over(|old(entries)|, maxPages))
    {
      hide Consistent, View, Dirty, Lru.Reversed, Spillway.Bytes, Trim, Lru.Without, Lru.LruIndex.Valid, Spillway.Spillway.Valid,
        Lru.Members, Lru.NoDuplicates, Pending, SoundIds;
      ghost var order0, dirty0, over0 := lru.order, Dirty(entries), Over(|entries|, maxPages);
      while |entries| > maxPages
        invariant Valid() && Quiet() && Dirty(entries) == dirty0
        invariant forall id | id in entries :: id in old(entries) && entries[id] == old(entries)[id]
        invariant |old(entries)| <= maxPages ==> entries == old(entries) && lru.order == old(lru.order)
        invariant Min(|old(entries)|, maxPages) <= |entries| <= |old(entries)|
        invariant HeadKept(dirty0, order0, lru.order)
        invariant Trim(order0, dirty0, over0) == Trim(lru.order, dirty0, Over(|entries|, maxPages))
        decreases |entries|
      {
        AllDirty(entries);
        if dirtyCount == |entries| {
          break;
        }
        var walk := lru.IterLruToMru();
        ghost var k;
        var victim;
        victim, k := FindClean(walk);
        AllWalked(lru.order, entries);
        if victim.None? {
          break;
        }
        NotDirty(entries, victim.value);
        lru.OrderDistinct();
        ColdestClean(lru.order, entries, k);
        TrimStep(lru.order, dirty0, |lru.order| - 1 - k, |entries| - maxPages);
        DropClean(victim.value);
      }
      NothingToTrim(lru.order, entries, Over(|entries|, maxPages));
    }

    /** Move the least recently used entry, dirty, to the spillway; on refusal put it back. */
    method SpillTail() returns (r: Result<()>)
      requires Valid() && Dirty(entries) == entries.Keys && |entries| > maxPages
      modifies this, lru, spillway
      ensures Valid() && Quiet() && Dirty(entries) == entries.Keys
      ensures r.Ok? ==> |entries| == |old(entries)| - 1 && |old(lru.order)| > 1 && lru.order == old(lru.order)[..|old(lru.order)| - 1]
      ensures r.Ok? ==> SpilledTail(hash, old(lru.order), old(entries), old(spillway.contents), entries, spillway.contents)
      ensures r.Err? ==> r.error == SpillwayFull && lru.order == old(lru.order) && entries.Keys == old(entries.Keys)
      ensures r.Err? ==> spillway.contents == old(spillway.contents) && Spillway.Bytes(|spillway.contents| + 1, PAGE_SIZE) > spillway.maxBytes
      ensures Moved(hash, old(entries), old(spillway.contents), entries, spillway.contents)
    {
      hide Consistent, View, Dirty, Spillway.Stored, Lru.Reversed, Spillway.Bytes, Settled, Lru.Without, Pending, Lru.Members,
        Lru.NoDuplicates, Lru.LruIndex.Valid, Spillway.Spillway.Valid, SoundIds, Moved, SpilledTail;
      lru.OrderDistinct();
      ghost var order0, e0, dc0, c0 := lru.order, entries, dirtyCount, spillway.contents;
      var victim, entry := LiftTail();
      EveryDirty(e0, victim);
      EntryId(order0, e0, dc0, c0, disk, victim);
      var settled := Entry(Settled(hash, entry), entry.dirty, false);
      var spilled := spillway.Spill(victim, settled.buf);
      if spilled.Err? {
        TailRefused(hash, order0, e0, dc0, c0, disk, victim, entries[victim := settled]);
        RestoreTail(victim, settled);
        return Err(spilled.error);
      }
      TailSpilled(hash, order0, e0, dc0, c0, disk, victim, entries, spillway.contents);
      return Ok(());
    }

    /** Take the least recently used entry, dirty, out of the cache. */
    method LiftTail() returns (victim: nat, entry: Entry)
      requires Valid() && Dirty(entries) == entries.Keys && |entries| > 1
      modifies this`entries, this`dirtyCount, lru
      ensures lru.Valid() && |old(lru.order)| > 1 && victim == old(lru.order)[|old(lru.order)| - 1] && victim in old(entries)
      ensures entry == old(entries)[victim] && entries == old(entries) - {victim}
      ensures lru.order == Lru.Without(old(lru.order), victim) && dirtyCount == old(dirtyCount) - 1
    {
      hide Consistent, View, Dirty, Spillway.Stored, Lru.Reversed, Spillway.Bytes, Lru.Without, Pending, Lru.Members, Lru.NoDuplicates,
        Lru.LruIndex.Valid, Spillway.Spillway.Valid;
      lru.OrderDistinct();
      Tail(lru.order, entries);
      TailCount(entries, lru.order);
      var walk := lru.IterLruToMru();
      victim := walk[0];
      entry := entries[victim];
      EveryDirty(entries, victim);
      entries := entries - {victim};
      var _ := lru.Remove(victim);
      UntrackDirty(entry.dirty);
    }

    /** Put a lifted entry back at the cold end. */
    method RestoreTail(victim: nat, entry: Entry)
      requires lru.Valid() && entry.dirty
      modifies this`entries, this`dirtyCount, lru
      ensures lru.Valid() && lru.order == Lru.Without(old(lru.order), victim) + [victim]
      ensures entries == old(entries)[victim := entry] && dirtyCount == old(dirtyCount) + 1
    {
      dirtyCount := dirtyCount + 1;
      lru.PushBack(victim);
      entries := entries[victim := entry];
    }

    method UntrackDirty(wasDirty: bool)
      modifies this`dirtyCount
      ensures dirtyCount == if wasDirty && old(dirtyCount) > 0 then old(dirtyCount) - 1 else old(dirtyCount)
    {
      if wasDirty && dirtyCount > 0 {
        dirtyCount := dirtyCount - 1;
      }
    }

    /**
     Bring the cache back to its cap: the coldest clean entries go first, then dirty ones are spilled
     from the cold end, so that what stays is a prefix of the recency order without those clean ones.
     The page at the hot end is never spilled, and a refusal loses nothing.
     */
    method MaybeEvict() returns (r: Result<()>)
      requires Valid()
      modifies this, lru, spillway
      ensures Valid() && Quiet()
      ensures r.Ok? ==> |entries| == Min(|old(entries)|, maxPages)
      ensures r.Err? ==> Full(r.error) && |old(entries)| >= |entries|
      ensures Moved(hash, old(entries), old(spillway.contents), entries, spillway.contents)
      ensures lru.order <= Trim(old(lru.order), old(Dirty(entries)), Over(|old(entries)|, maxPages))
      ensures HeadKept(old(Dirty(entries)), old(lru.order), lru.order)
    {
      hide Consistent, View, Dirty, Spillway.Bytes, Pending, Coherent, Trim, Lru.LruIndex.Valid, Spillway.Spillway.Valid, SoundIds, Moved, Full;
      EvictCleanToCap();
      ghost var e1 := entries;
      r := SpillToCap();
      MovedAfter(hash, old(entries), e1, old(spillway.contents), entries, spillway.contents);
    }

    /** With only dirty entries left, spill from the cold end until the cache fits. */
    method SpillToCap() returns (r: Result<()>)
      requires Valid() && (|entries| <= maxPages || Dirty(entries) == entries.Keys)
      modifies this, lru, spillway
      ensures Valid() && Quiet()
      ensures r.Ok? ==> |entries| == Min(|old(entries)|, maxPages)
      ensures r.Err? ==> Full(r.error) && |old(entries)| >= |entries|
      ensures Moved(hash, old(entries), old(spillway.contents), entries, spillway.contents)
      ensures lru.order <= old(lru.order) && (old(lru.order) != [] ==> lru.order != [])
    {
      hide Consistent, View, Dirty, Pending, Coherent, Lru.LruIndex.Valid, Spillway.Spillway.Valid, SoundIds, Moved, Full;
      ghost var e0, c0 := entries, spillway.contents;
      MovedNone(hash, e0, c0);
      r := Ok(());
      while |entries| > maxPages && r.Ok?
        invariant Valid() && Quiet()
        invariant |entries| <= maxPages || Dirty(entries) == entries.Keys
        invariant Min(|e0|, maxPages) <= |entries| <= |e0|
        invariant r.Err? ==> Full(r.error)
        invariant Moved(hash, e0, c0, entries, spillway.contents)
        invariant lru.order <= old(lru.order) && (old(lru.order) != [] ==> lru.order != [])
        decreases |entries|, r.Ok?
      {
        ghost var e1, c1 := entries, spillway.contents;
        r := SpillOne();
        MovedTrans(hash, e0, c0, e1, c1, entries, spillway.contents);
      }
    }

    /** Spill the coldest page, if there is a spillway and it has a slot left. */
    method SpillOne() returns (r: Result<()>)
      requires Valid() && Dirty(entries) == entries.Keys && |entries| > maxPages
      modifies this, lru, spillway
      ensures Valid() && Quiet() && Dirty(entries) == entries.Keys
      ensures r.Ok? ==> |entries| == |old(entries)| - 1 && |old(lru.order)| > 1 && lru.order == old(lru.order)[..|old(lru.order)| - 1]
      ensures r.Err? ==> Full(r.error) && |entries| == |old(entries)| && lru.order == old(lru.order)
      ensures Moved(hash, old(entries), old(spillway.contents), entries, spillway.contents)
    {
      hide Consistent, View, Dirty, Spillway.Bytes, Pending, Coherent, Lru.LruIndex.Valid, Spillway.Spillway.Valid, SoundIds, Moved,
        SpilledTail;
      ghost var e0 := entries;
      MovedNone(hash, e0, spillway.contents);
      if spillway.maxBytes == 0 {
        TooManyDirty(entries, spillway.contents);
        return Err(CacheFull);
      }
      r := SpillTail();
      if r.Err? {
        SameSize(e0, entries);
        TooManyDirty(entries, spillway.contents);
      }
    }

    // ----- reading -----

    /**
     Bring a page into the cache. The eviction comes first, so a miss leaves the cache within its
     cap exactly when it was below it before.
     */
    method LoadPage(id: u64) returns (r: Result<()>)
      requires Valid() && id !in entries
      modifies this, lru, spillway
      ensures Valid() && Quiet()
      ensures r.Ok? ==> id in entries && |entries| == Min(|old(entries)|, maxPages) + 1
      ensures r.Ok? ==> (|entries| <= maxPages <==> |old(entries)| < maxPages)
      ensures r == Err(CacheFull) || r == Err(SpillwayFull) ==> |old(entries)| > maxPages && Full(r.error)
      ensures r.Ok? && id in old(spillway.contents) ==>
                entries[id].buf == old(spillway.contents)[id] && entries[id].dirty && !entries[id].needsStamp
      ensures r.Ok? && id !in old(spillway.contents) ==> id < |disk| && Stamped(hash, disk[id]) && entries[id] == Entry(disk[id], false, false)
      ensures r.Err? ==> id !in entries
      ensures r.Err? ==> Refused(r.error, id, spillway.contents, disk, hash)
    {
      hide Consistent, View, Dirty, Coherent, Pending, Settled, Lru.Without, Lru.Members, Lru.LruIndex.Valid, Spillway.Spillway.Valid,
        Spillway.Bytes, SoundIds, Stamped;
      var room := MaybeEvict();
      if room.Err? {
        return room;
      }
      var resident := spillway.IsResident(id);
      if resident {
        AdmitSpilled(id);
        return Ok(());
      }
      if id >= |disk| {
        return Err(InvalidPageId(id));
      }
      if !Stamped(hash, disk[id]) {
        return Err(ChecksumMismatch(id));
      }
      CoherentLoadDisk(lru.order, entries, dirtyCount, spillway.contents, disk, id);
      SoundLoadDisk(hash, entries, spillway.contents, disk, id);
      SizePut(entries, id, Entry(disk[id], false, false));
      entries := entries[id := Entry(disk[id], false, false)];
      lru.PushFront(id);
      return Ok(());
    }

    /** Take a page back from the spillway; it is still dirty. */
    method AdmitSpilled(id: u64)
      requires Valid() && id in spillway.contents
      modifies this, lru, spillway
      ensures Valid() && Quiet() && id in entries && |entries| == |old(entries)| + 1
      ensures entries[id].buf == old(spillway.contents)[id] && entries[id].dirty && !entries[id].needsStamp
    {
      hide Consistent, View, Dirty, Coherent, Pending, Settled, Lru.Without, Lru.Members, Lru.LruIndex.Valid, Spillway.Spillway.Valid,
        Spillway.Bytes, SoundIds;
      var blob := spillway.Rehydrate(id);
      SpilledIsPage(lru.order, entries, dirtyCount, spillway.contents, disk, id);
      var buf: Image := blob.value;
      CoherentLoadSpilled(lru.order, entries, dirtyCount, spillway.contents, disk, id, buf);
      IsConsistent(lru.order, entries, dirtyCount, spillway.contents, disk);
      SoundLoadSpilled(hash, entries, spillway.contents, disk, id, buf);
      SizePut(entries, id, Entry(buf, true, false));
      spillway.Forget(id);
      entries := entries[id := Entry(buf, true, false)];
      dirtyCount := dirtyCount + 1;
      lru.PushFront(id);
    }

    method TouchLru(id: nat)
      requires Valid() && id in entries
      modifies lru
      ensures Valid() && lru.order == [id] + Lru.Without(old(lru.order), id)
    {
      hide Consistent, View, Dirty, Coherent, Pending, Settled, Lru.Without, Lru.Members, Lru.LruIndex.Valid, Spillway.Spillway.Valid,
        Spillway.Bytes;
      CoherentTouch(lru.order, entries, dirtyCount, spillway.contents, disk, id);
      lru.PushFront(id);
    }

    /** Read a page: what is returned is what the flat map holds. */
    method Get(id: u64) returns (r: Result<Image>)
      requires Valid()
      modifies this, lru, spillway
      ensures Valid() && Quiet()
      ensures r.Ok? ==> id in entries && entries[id].buf == r.value && Body(r.value) == Flat()[id]
      ensures r.Ok? ==> lru.order != [] && lru.order[0] == id
      ensures r.Ok? ==> |entries| == if id in old(entries) then |old(entries)| else Min(|old(entries)|, maxPages) + 1
      ensures r == Err(CacheFull) || r == Err(SpillwayFull) ==> |old(entries)| > maxPages && Full(r.error)
      ensures r.Ok? && id in old(entries) ==> entries == old(entries) && lru.order == [id] + Lru.Without(old(lru.order), id)
      ensures r.Ok? && id !in old(entries) && id in old(spillway.contents) ==>
                entries[id].buf == old(spillway.contents)[id] && entries[id].dirty && !entries[id].needsStamp
      ensures r.Ok? && id !in old(entries) && id !in old(spillway.contents) ==>
                id < |disk| && Stamped(hash, disk[id]) && entries[id] == Entry(disk[id], false, false)
      ensures r.Err? ==> id !in old(entries) && Refused(r.error, id, spillway.contents, disk, hash)
      ensures r.Err? && id in old(Sounds()) ==> Full(r.error)
    {
      hide Consistent, Dirty, Coherent, Pending, Lru.Without, Lru.LruIndex.Valid, Spillway.Spillway.Valid, Stamped, Spillway.Bytes;
      if id !in entries {
        var loaded := LoadPage(id);
        if loaded.Err? {
          assert id in Sounds() ==> Sound(hash, entries, spillway.contents, disk, id);
          return Err(loaded.error);
        }
      }
      TouchLru(id);
      return Ok(entries[id].buf);
    }

    // ----- writing -----

    /** Make a page writable: cached and dirty. The bytes are written through `Write`. */
    method GetMut(id: u64) returns (r: Result<Image>)
      requires Valid()
      modifies this, lru, spillway
      ensures Valid() && Flat() == old(Flat()) && disk == old(disk) && nextPageId == old(nextPageId) && maxPages == old(maxPages)
      ensures r.Ok? ==> id in entries && entries[id].dirty && entries[id].buf == r.value && Body(r.value) == Flat()[id]
      ensures Unsaved() == if r.Ok? then old(Unsaved()) + {id} else old(Unsaved())
      ensures Sounds() == old(Sounds()) && spillway.maxBytes == old(spillway.maxBytes)
      ensures r.Ok? && id in old(entries) ==> |entries| == |old(entries)|
      ensures r.Ok? ==> (entries[id].needsStamp <==> id in old(entries) && old(entries)[id].needsStamp)
      ensures r.Ok? && id !in old(entries) && id !in old(spillway.contents) ==> id < |disk| && Stamped(hash, disk[id])
      ensures r.Err? ==> id !in old(entries) && Refused(r.error, id, spillway.contents, disk, hash)
      ensures r.Err? && (r.error == CacheFull || r.error == SpillwayFull || id in old(Sounds())) ==> Full(r.error)
    {
      hide Consistent, Dirty, Coherent, Pending, Lru.Without, Lru.LruIndex.Valid, Spillway.Spillway.Valid, Refused, SoundIds, Full, Stamped;
      r := Get(id);
      if r.Err? {
        return;
      }
      CoherentDirty(lru.order, entries, dirtyCount, spillway.contents, disk, id, entries[id].needsStamp);
      SoundMark(hash, entries, spillway.contents, disk, id);
      SizePut(entries, id, entries[id].(dirty := true));
      hide View;
      if !entries[id].dirty {
        dirtyCount := dirtyCount + 1;
        entries := entries[id := entries[id].(dirty := true)];
      }
    }

    /** As GetMut, with the checksum left to whoever writes the page out. */
    method GetMutDeferredStamp(id: u64) returns (r: Result<Image>)
      requires Valid()
      modifies this, lru, spillway
      ensures Valid() && Flat() == old(Flat()) && disk == old(disk) && nextPageId == old(nextPageId) && maxPages == old(maxPages)
      ensures r.Ok? ==> id in entries && entries[id].dirty && entries[id].needsStamp && entries[id].buf == r.value && Body(r.value) == Flat()[id]
      ensures Unsaved() == if r.Ok? then old(Unsaved()) + {id} else old(Unsaved())
      ensures Sounds() == if r.Ok? then old(Sounds()) + iset{id} else old(Sounds())
      ensures r.Err? ==> id !in old(entries) && Refused(r.error, id, spillway.contents, disk, hash)
      ensures r.Err? && (r.error == CacheFull || r.error == SpillwayFull || id in old(Sounds())) ==> Full(r.error)
    {
      hide Consistent, Dirty, Coherent, Pending, Lru.Without, Lru.LruIndex.Valid, Spillway.Spillway.Valid, Refused, View, SoundIds, Full, Stamped;
      r := GetMut(id);
      if r.Err? {
        return;
      }
      CoherentDirty(lru.order, entries, dirtyCount, spillway.contents, disk, id, true);
      SoundMark(hash, entries, spillway.contents, disk, id);
      entries := entries[id := entries[id].(needsStamp := true)];
    }

    /** Write through a reference obtained from GetMut: exactly one page of the flat map changes. */
    method Write(id: nat, buf: Image)
      requires Valid() && id in entries && entries[id].dirty
      modifies this
      ensures Valid() && Flat() == old(Flat())[id := Body(buf)] && Unsaved() == old(Unsaved())
      ensures disk == old(disk) && nextPageId == old(nextPageId) && maxPages == old(maxPages)
      ensures entries == old(entries)[id := Entry(buf, true, old(entries)[id].needsStamp)]
      ensures Sounds() == if entries[id].needsStamp || Stamped(hash, buf) then old(Sounds()) + iset{id} else old(Sounds()) - iset{id}
    {
      hide Consistent, View, Dirty, Coherent, Pending, Settled, Lru.Without, Lru.Members, Lru.LruIndex.Valid, Spillway.Spillway.Valid,
        Spillway.Bytes, SoundIds, Stamped;
      CoherentWrite(lru.order, entries, dirtyCount, spillway.contents, disk, id, buf);
      IsConsistent(lru.order, entries, dirtyCount, spillway.contents, disk);
      NotSpilled(entries, spillway.contents, disk, id);
      SoundPut(hash, entries, spillway.contents, disk, id, entries[id].(buf := buf));
      entries := entries[id := entries[id].(buf := buf)];
    }

    method CopyPage(src: u64, dst: u64) returns (r: Result<()>)
      requires Valid()
      modifies this, lru, spillway
      ensures Valid() && disk == old(disk) && nextPageId == old(nextPageId) && maxPages == old(maxPages)
      ensures r.Ok? ==> Flat() == old(Flat())[dst := old(Flat())[src]] && Unsaved() == old(Unsaved()) + {dst}
      ensures r.Err? ==> Flat() == old(Flat()) && Unsaved() == old(Unsaved()) && Sounds() == old(Sounds())
      ensures r.Ok? ==> old(Sounds()) - iset{dst} <= Sounds() <= old(Sounds()) + iset{dst}
      ensures r.Ok? ==> dst in entries && (dst in Sounds() <==> entries[dst].needsStamp || Stamped(hash, entries[dst].buf))
      ensures r.Err? && src in old(Sounds()) && dst in old(Sounds()) ==> Full(r.error)
    {
      hide Consistent, Dirty, Coherent, Pending, View, Body, Lru.LruIndex.Valid, Spillway.Spillway.Valid, Refused, SoundIds, Full, Stamped;
      var bytes := Get(src);
      if bytes.Err? {
        return Err(bytes.error);
      }
      var target := GetMut(dst);
      if target.Err? {
        return Err(target.error);
      }
      Write(dst, bytes.value);
      return Ok(());
    }

    // ----- allocation -----

    /** Where the next new page goes. Opening a file sets it to the committed page count, which may lie below the file's end. */
    method SetNextPageId(id: u64)
      requires Valid()
      modifies this`nextPageId
      ensures Valid() && nextPageId == id && Flat() == old(Flat()) && Unsaved() == old(Unsaved()) && Sounds() == old(Sounds())
    {
      hide Coherent, View, Pending, Lru.LruIndex.Valid, Spillway.Spillway.Valid, SoundIds;
      nextPageId := id;
    }

    /** Does the page have content the disk does not have? */
    method IsDirty(id: nat) returns (r: bool)
      requires Valid()
      ensures r <==> id in Unsaved()
    {
      hide Consistent, Coherent, Lru.LruIndex.Valid, Spillway.Spillway.Valid;
      var resident := spillway.IsResident(id);
      return (id in entries && entries[id].dirty) || resident;
    }

    /**
     The next id, zeroed, over whatever the file holds there. The new page is never the one evicted
     to make room for it. If room cannot be made the page stays allocated, and the cache over its cap.
     */
    method NewPage() returns (r: Result<nat>)
      requires Valid() && nextPageId < U64_MAX && nextPageId !in Unsaved()
      modifies this, lru, spillway
      ensures Valid() && disk == old(disk) && nextPageId == old(nextPageId) + 1 && maxPages == old(maxPages)
      ensures Flat() == old(Flat())[old(nextPageId) := Body(Zeros())]
      ensures Unsaved() == old(Unsaved()) + {old(nextPageId)} && Sounds() == Blanked(hash, old(Sounds()), old(nextPageId))
      ensures r.Ok? ==> r.value == old(nextPageId) && r.value in entries && |entries| <= maxPages
      ensures r.Err? ==> Full(r.error)
    {
      hide Consistent, View, Dirty, Coherent, Pending, Settled, Lru.Without, Lru.Members, Lru.LruIndex.Valid, Spillway.Spillway.Valid,
        Spillway.Bytes, SoundIds, Full, Blanked, Zeros;
      var id := nextPageId;
      CoherentNew(lru.order, entries, dirtyCount, spillway.contents, disk, id, Entry(Zeros(), true, false));
      SoundNew(hash, entries, spillway.contents, disk, id);
      nextPageId := nextPageId + 1;
      entries := entries[id := Entry(Zeros(), true, false)];
      dirtyCount := dirtyCount + 1;
      lru.PushFront(id);
      HeadIn(lru.order, entries, dirtyCount, spillway.contents, disk);
      var room := MaybeEvict();
      HeadIn(lru.order, entries, dirtyCount, spillway.contents, disk);
      if room.Err? {
        return Err(room.error);
      }
      return Ok(id);
    }

    /** Replace every cached or spilled copy of a page by a dirty page of zeros at the hot end. */
    method PlaceZeros(id: u64)
      requires Valid()
      modifies this`entries, this`dirtyCount, lru, spillway
      ensures Valid() && Flat() == old(Flat())[id := Body(Zeros())] && Unsaved() == old(Unsaved()) + {id}
      ensures Sounds() == Blanked(hash, old(Sounds()), id) && spillway.maxBytes == old(spillway.maxBytes)
      ensures lru.order != [] && lru.order[0] == id && id in Dirty(entries)
    {
      hide Consistent, View, Dirty, Coherent, Pending, Settled, Lru.Without, Lru.Members, Lru.LruIndex.Valid, Spillway.Spillway.Valid,
        Spillway.Bytes, Zeros, SoundIds, Stamped;
      var zeroed := Entry(Zeros(), true, false);
      CoherentReissue(lru.order, entries, dirtyCount, spillway.contents, disk, id, zeroed);
      IsConsistent(lru.order, entries, dirtyCount, spillway.contents, disk);
      PutDirty(entries, spillway.contents, disk, id, zeroed);
      DirtyPut(entries, id, zeroed);
      SoundPut(hash, entries, spillway.contents, disk, id, zeroed);
      PutAnew(entries, id, zeroed);
      var wasDirty := id in entries && entries[id].dirty;
      entries := entries - {id};
      UntrackDirty(wasDirty);
      spillway.Forget(id);
      entries := entries[id := zeroed];
      dirtyCount := dirtyCount + 1;
      lru.PushFront(id);
    }

    /** Hand an existing id out again as a zeroed page, dropping any cached or spilled copy of it. */
    method ReissuePage(id: u64) returns (r: Result<()>)
      requires Valid()
      modifies this, lru, spillway
      ensures Valid() && disk == old(disk) && nextPageId == old(nextPageId) && maxPages == old(maxPages)
      ensures Flat() == old(Flat())[id := Body(Zeros())] && Unsaved() == old(Unsaved()) + {id} && Sounds() == Blanked(hash, old(Sounds()), id)
      ensures spillway.maxBytes == old(spillway.maxBytes)
      ensures r.Ok? ==> id in entries && |entries| <= maxPages
      ensures r.Err? ==> Full(r.error)
    {
      hide Consistent, View, Dirty, Coherent, Pending, Settled, Lru.Without, Lru.Members, Lru.LruIndex.Valid, Spillway.Spillway.Valid,
        Spillway.Bytes, Body, Zeros, SoundIds, Blanked, Full;
      PlaceZeros(id);
      r := MaybeEvict();
      HeadIn(lru.order, entries, dirtyCount, spillway.contents, disk);
    }

    // ----- flush -----

    /** Write one dirty entry to the file, its deferred stamp settled first, and mark it clean. */
    method FlushOne(id: nat)
      requires Valid() && id in Dirty(entries) && id in entries
      modifies this
      ensures Valid() && Flat() == old(Flat()) && Unsaved() == old(Unsaved()) - {id} && Dirty(entries) == old(Dirty(entries)) - {id}
      ensures disk == DiskPut(old(disk), id, Settled(hash, old(entries)[id]))
      ensures entries == old(entries)[id := Entry(Settled(hash, old(entries)[id]), false, false)] && old(Sounds()) <= Sounds()
      ensures nextPageId == old(nextPageId) && maxPages == old(maxPages) && drainInsertion == old(drainInsertion)
    {
      hide Consistent, View, Dirty, Coherent, Pending, Settled, Lru.Without, Lru.Members, Lru.LruIndex.Valid, Spillway.Spillway.Valid,
        Spillway.Bytes, DiskPut, DiskGot, Outgoing, Lru.NoDuplicates, SoundIds;
      CoherentFlush(hash, lru.order, entries, dirtyCount, spillway.contents, disk, id);
      SoundFlush(hash, entries, spillway.contents, disk, id);
      var settled := Settled(hash, entries[id]);
      disk := DiskPut(disk, id, settled);
      entries := entries[id := Entry(settled, false, false)];
      if dirtyCount > 0 {
        dirtyCount := dirtyCount - 1;
      }
    }

    /** Copy one spilled page to the file and keep it as a clean entry. */
    method DrainOne(id: u64)
      requires Valid() && id in spillway.contents
      modifies this, lru, spillway
      ensures Valid() && Flat() == old(Flat()) && Dirty(entries) == old(Dirty(entries)) && old(Sounds()) <= Sounds()
      ensures |old(spillway.contents)[id]| == PAGE_SIZE && disk == DiskPut(old(disk), id, old(spillway.contents)[id])
      ensures spillway.contents == old(spillway.contents) - {id}
      ensures lru.order == if drainInsertion.Mru? then [id] + Lru.Without(old(lru.order), id) else Lru.Without(old(lru.order), id) + [id]
      ensures nextPageId == old(nextPageId) && maxPages == old(maxPages) && drainInsertion == old(drainInsertion)
    {
      hide Consistent, View, Dirty, Coherent, Pending, Settled, Lru.Without, Lru.Members, Lru.LruIndex.Valid, Spillway.Spillway.Valid,
        Spillway.Bytes, DiskPut, DiskGot, Outgoing, Lru.NoDuplicates, SoundIds;
      var blob := spillway.Rehydrate(id);
      SpilledIsPage(lru.order, entries, dirtyCount, spillway.contents, disk, id);
      var buf: Image := blob.value;
      CoherentDrain(lru.order, entries, dirtyCount, spillway.contents, disk, id, buf);
      IsConsistent(lru.order, entries, dirtyCount, spillway.contents, disk);
      SoundDrain(hash, entries, spillway.contents, disk, id, buf);
      spillway.Forget(id);
      disk := DiskPut(disk, id, buf);
      if id !in entries {
        entries := entries[id := Entry(buf, false, false)];
        match drainInsertion {
          case LruTail => lru.PushBack(id);
          case Mru => lru.PushFront(id);
        }
      }
    }

    /** Phase 1a: write out every dirty entry. */
    method FlushEntries() returns (writes: seq<nat>)
      requires Valid()
      modifies this
      ensures Valid() && Flat() == old(Flat()) && Dirty(entries) == {} && dirtyCount == 0 && old(Sounds()) <= Sounds()
      ensures Lru.NoDuplicates(writes) && Lru.Members(writes) == old(Dirty(entries)) && entries.Keys == old(entries.Keys)
      ensures DiskGot(hash, old(entries), old(spillway.contents), old(disk), disk, Lru.Members(writes))
      ensures nextPageId == old(nextPageId) && maxPages == old(maxPages) && drainInsertion == old(drainInsertion)
    {
      hide Consistent, View, Dirty, Coherent, Pending, Settled, Lru.Without, Lru.Members, Lru.LruIndex.Valid, Spillway.Spillway.Valid,
        Spillway.Bytes, DiskPut, DiskGot, Outgoing, Lru.NoDuplicates, SoundIds;
      ghost var e0, c0, disk0 := entries, spillway.contents, disk;
      writes := [];
      LogNone();
      DiskGotNone(hash, e0, c0, disk0);
      var todo := Dirty(entries);
      DirtyKeys(entries);
      assert todo - todo == {};
      while todo != {}
        invariant Valid() && Flat() == old(Flat()) && Dirty(entries) == todo && todo <= Dirty(e0) && old(Sounds()) <= Sounds()
        invariant todo <= e0.Keys && entries.Keys == e0.Keys && forall id | id in todo :: entries[id] == e0[id]
        invariant Lru.NoDuplicates(writes) && Lru.Members(writes) == Dirty(e0) - todo
        invariant DiskGot(hash, e0, c0, disk0, disk, Lru.Members(writes))
        invariant nextPageId == old(nextPageId) && maxPages == old(maxPages) && drainInsertion == old(drainInsertion)
        decreases |todo|
      {
        var id :| id in todo;
        LogMore(writes, id);
        DiskGotEntry(hash, e0, c0, disk0, disk, Lru.Members(writes), id);
        FlushOne(id);
        writes := writes + [id];
        todo := todo - {id};
      }
      NoneDirty(lru.order, entries, dirtyCount, spillway.contents, disk);
      dirtyCount := 0;
    }

    /** Phase 1b: drain the spillway batch by batch; the resident set shrinks until it is empty. */
    method DrainSpillway(writes0: seq<nat>, ghost e0: Entries, ghost c0: map<nat, seq<byte>>, ghost disk0: seq<Image>) returns (writes: seq<nat>)
      requires Valid() && Dirty(entries) == {} && spillway.contents == c0
      requires Lru.NoDuplicates(writes0) && Lru.Members(writes0) !! c0.Keys && e0.Keys !! c0.Keys
      requires DiskGot(hash, e0, c0, disk0, disk, Lru.Members(writes0))
      modifies this, lru, spillway
      ensures Valid() && Flat() == old(Flat()) && Dirty(entries) == {} && spillway.contents == map[] && old(Sounds()) <= Sounds()
      ensures if c0 == map[] then entries == old(entries) else |entries| <= maxPages
      ensures Lru.NoDuplicates(writes) && Lru.Members(writes) == Lru.Members(writes0) + c0.Keys
      ensures DiskGot(hash, e0, c0, disk0, disk, Lru.Members(writes))
      ensures nextPageId == old(nextPageId) && maxPages == old(maxPages) && drainInsertion == old(drainInsertion)
    {
      hide Consistent, View, Dirty, Coherent, Pending, Settled, Lru.Without, Lru.Members, Lru.LruIndex.Valid, Spillway.Spillway.Valid,
        Spillway.Bytes, DiskPut, DiskGot, Outgoing, Lru.NoDuplicates, SoundIds;
      writes := writes0;
      var left := spillway.SlotCount();
      while left > 0
        invariant Valid() && Flat() == old(Flat()) && Dirty(entries) == {} && left == |spillway.contents| && old(Sounds()) <= Sounds()
        invariant Draining(hash, e0, c0, disk0, disk, spillway.contents, Lru.Members(writes0), writes)
        invariant (spillway.contents == c0 && entries == old(entries)) || (c0 != map[] && |entries| <= maxPages)
        invariant nextPageId == old(nextPageId) && maxPages == old(maxPages) && drainInsertion == old(drainInsertion)
        decreases left
      {
        var batch := spillway.DrainBatch(maxPages);
        writes := DrainBatchOut(batch, writes, e0, c0, disk0, Lru.Members(writes0));
        EvictCleanToCap();
        NoneIsAll(entries);
        left := spillway.SlotCount();
      }
      DrainedAll(hash, e0, c0, disk0, disk, spillway.contents, Lru.Members(writes0), writes);
    }

    /** One batch of the drain. */
    method DrainBatchOut(batch: seq<nat>, writes0: seq<nat>, ghost e0: Entries, ghost c0: map<nat, seq<byte>>, ghost disk0: seq<Image>,
                         ghost before: set<nat>) returns (writes: seq<nat>)
      requires Valid() && Dirty(entries) == {} && batch != []
      requires forall i | 0 <= i < |batch| :: batch[i] in spillway.contents
      requires forall i, j | 0 <= i < j < |batch| :: batch[i] != batch[j]
      requires Draining(hash, e0, c0, disk0, disk, spillway.contents, before, writes0)
      modifies this, lru, spillway
      ensures Valid() && Flat() == old(Flat()) && Dirty(entries) == {} && |spillway.contents| < |old(spillway.contents)|
      ensures old(Sounds()) <= Sounds()
      ensures Draining(hash, e0, c0, disk0, disk, spillway.contents, before, writes)
      ensures nextPageId == old(nextPageId) && maxPages == old(maxPages) && drainInsertion == old(drainInsertion)
    {
      hide Consistent, View, Dirty, Coherent, Pending, Settled, Lru.Without, Lru.Members, Lru.LruIndex.Valid, Spillway.Spillway.Valid,
        Spillway.Bytes, DiskPut, DiskGot, Outgoing, Lru.NoDuplicates, SoundIds;
      hide Draining;
      writes := writes0;
      for k := 0 to |batch|
        invariant Valid() && Flat() == old(Flat()) && Dirty(entries) == {} && old(Sounds()) <= Sounds()
        invariant forall i | k <= i < |batch| :: batch[i] in spillway.contents
        invariant Draining(hash, e0, c0, disk0, disk, spillway.contents, before, writes)
        invariant |spillway.contents| == |old(spillway.contents)| - k
        invariant nextPageId == old(nextPageId) && maxPages == old(maxPages) && drainInsertion == old(drainInsertion)
      {
        var id := batch[k];
        SpilledId(lru.order, entries, dirtyCount, spillway.contents, disk, id);
        DrainingStep(hash, e0, c0, disk0, disk, spillway.contents, before, writes, id);
        DrainOne(id);
        writes := writes + [id];
      }
    }

    /**
     Make the disk equal the flat map: every unsaved page written exactly once, nothing left dirty
     or spilled, nothing visible changed.
     */
    method Flush() returns (writes: seq<nat>)
      requires Valid()
      modifies this, lru, spillway
      ensures Valid() && Flat() == old(Flat()) && Unsaved() == {} && dirtyCount == 0
      ensures Flat() == View(map[], map[], disk) && old(Sounds()) <= Sounds() == SoundIds(hash, map[], map[], disk)
      ensures if old(spillway.contents) == map[] then entries.Keys == old(entries.Keys) else |entries| <= maxPages
      ensures spillway.contents == map[] && spillway.backing == [] && forall id | id in entries :: !entries[id].dirty
      ensures Lru.NoDuplicates(writes) && Lru.Members(writes) == old(Unsaved())
      ensures DiskGot(hash, old(entries), old(spillway.contents), old(disk), disk, old(Unsaved()))
      ensures nextPageId == old(nextPageId) && maxPages == old(maxPages)
    {
      hide Consistent, View, Dirty, Coherent, Pending, Settled, Lru.Without, Lru.Members, Lru.LruIndex.Valid, Spillway.Spillway.Valid,
        Spillway.Bytes, DiskPut, DiskGot, Outgoing, Lru.NoDuplicates, SoundIds;
      ghost var e0, c0, disk0 := entries, spillway.contents, disk;
      Apart(lru.order, e0, dirtyCount, c0, disk);
      PendingIs(e0, c0);
      writes := FlushEntries();
      writes := DrainSpillway(writes, e0, c0, disk0);
      PendingIs(entries, spillway.contents);
      spillway.Truncate();
      AllClean(lru.order, entries, dirtyCount, disk);
      IsConsistent(lru.order, entries, dirtyCount, spillway.contents, disk);
      SoundAtRest(hash, entries, spillway.contents, disk);
      NoneDirty(lru.order, entries, dirtyCount, spillway.contents, disk);
    }

    // ----- rollback -----

    /** Drop every dirty entry and the whole spillway: the cache shows the disk again. */
    method DiscardAllDirty()
      requires Valid()
      modifies this, lru, spillway
      ensures Valid() && Flat() == View(map[], map[], disk) && Unsaved() == {} && dirtyCount == 0
      ensures entries == Clean(old(entries)) && spillway.contents == map[]
      ensures disk == old(disk) && nextPageId == old(nextPageId) && maxPages == old(maxPages)
    {
      hide View, Consistent, Pending, Dirty, Settled, Lru.Without, Lru.LruIndex.Valid, Spillway.Spillway.Valid, Spillway.Bytes, Lru.Members,
        Coherent, Clean;
      ghost var e0 := entries;
      CoherentDiscard(lru.order, e0, dirtyCount, spillway.contents, disk);
      DirtyKeys(e0);
      var todo := Dirty(entries);
      assert e0 - (Dirty(e0) - todo) == e0;
      while todo != {}
        invariant lru.Valid() && spillway.Valid() && Lru.Members(lru.order) == entries.Keys && todo <= Dirty(e0)
        invariant entries == e0 - (Dirty(e0) - todo)
        invariant disk == old(disk) && nextPageId == old(nextPageId) && maxPages == old(maxPages)
        decreases |todo|
      {
        var id :| id in todo;
        DropMembers(lru.order, id);
        assert e0 - (Dirty(e0) - todo) - {id} == e0 - (Dirty(e0) - (todo - {id}));
        entries := entries - {id};
        var _ := lru.Remove(id);
        todo := todo - {id};
      }
      assert e0 - (Dirty(e0) - {}) == e0 - Dirty(e0);
      NoDirtyLeft(lru.order, e0, disk);
      dirtyCount := 0;
      spillway.Truncate();
    }

    /** Forget everything at or above `n`: cached, spilled and on disk; ids from `n` on may be handed out again. */
    method Truncate(n: nat)
      requires Valid()
      modifies this, lru, spillway
      ensures Valid() && nextPageId == Min(old(nextPageId), n) && |disk| == n && disk == Resized(old(disk), n) && maxPages == old(maxPages)
      ensures entries == EntriesBelow(old(entries), n) && spillway.contents == Spillway.Below(old(spillway.contents), n)
      ensures forall id: nat :: Flat()[id] == if id < n then old(Flat())[id] else Body(Zeros())
    {
      hide View, Consistent, Dirty, Settled, Lru.Without, Lru.LruIndex.Valid, Spillway.Spillway.Valid, Spillway.Bytes, Lru.Members, Coherent;
      hide EntriesBelow;
      ghost var e0 := entries;
      IsConsistent(lru.order, e0, dirtyCount, spillway.contents, disk);
      var above := set id | id in entries && id >= n;
      var todo := above;
      assert e0 - (above - todo) == e0;
      while todo != {}
        invariant Valid() && todo <= above && spillway.contents == old(spillway.contents)
        invariant entries == e0 - (above - todo)
        invariant disk == old(disk) && nextPageId == old(nextPageId) && maxPages == old(maxPages)
        decreases |todo|
      {
        var id :| id in todo;
        CoherentDrop(lru.order, entries, dirtyCount, spillway.contents, disk, id);
        assert e0 - (above - todo) - {id} == e0 - (above - (todo - {id}));
        var entry := entries[id];
        entries := entries - {id};
        if entry.dirty && dirtyCount > 0 {
          dirtyCount := dirtyCount - 1;
        }
        var _ := lru.Remove(id);
        todo := todo - {id};
      }
      NoneAbove(e0, above, n);
      CoherentCut(lru.order, e0, entries, dirtyCount, spillway.contents, disk, n);
      spillway.ForgetAbove(n);
      disk := Resized(disk, n);
      if nextPageId > n {
        nextPageId := n;
      }
    }

    /**
     Abandon a transaction that began with the file at `n` pages: every id below `n` reads what the
     disk holds for it, and nothing dirty, spilled or allocated at or above `n` survives.
     */
    method Rollback(n: nat)
      requires Valid()
      modifies this, lru, spillway
      ensures Valid() && Unsaved() == {} && nextPageId == Min(old(nextPageId), n) && disk == Resized(old(disk), n) && maxPages == old(maxPages)
      ensures forall id | id in entries :: id < n && !entries[id].dirty
      ensures forall id: nat :: Flat()[id] == if id < n then View(map[], map[], old(disk))[id] else Body(Zeros())
      ensures Sounds() == SoundIds(hash, map[], map[], disk)
    {
      hide SoundIds, View, Consistent, Settled, Lru.Without, Lru.LruIndex.Valid, Spillway.Spillway.Valid, Spillway.Bytes, Lru.Members, Coherent;
      DiscardAllDirty();
      Truncate(n);
      IsConsistent(lru.order, entries, dirtyCount, spillway.contents, disk);
      SoundAtRest(hash, entries, spillway.contents, disk);
    }
  }

  // ----- facts about the recency order and the entries -----

  function Over(n: nat, cap: nat): nat {
    if n > cap then n - cap else 0
  }

  /** A recency order without its `n` coldest clean ids (or all its clean ids, if there are fewer). */
  ghost function Trim(order: seq<nat>, dirty: set<nat>, n: nat): seq<nat> {
    if order == [] || n == 0 then order
    else
      var last := |order| - 1;
      if order[last] in dirty then Trim(order[..last], dirty, n) + [order[last]] else Trim(order[..last], dirty, n - 1)
  }

  /** Dropping the coldest clean id is the first step of a trim. */
  lemma {:induction false} TrimStep(order: seq<nat>, dirty: set<nat>, p: nat, n: nat)
    requires Lru.NoDuplicates(order) && p < |order| && order[p] !in dirty && n > 0
    requires forall j | p < j < |order| :: order[j] in dirty
    ensures Trim(order, dirty, n) == Trim(Lru.Without(order, order[p]), dirty, n - 1)
    decreases |order|
  {
    hide Lru.Without, Lru.NoDuplicates;
    var last := |order| - 1;
    Lru.WithoutAt(order, p);
    if p < last {
      Lru.PrefixDistinct(order, last);
      Lru.WithoutAt(order[..last], p);
      TrimStep(order[..last], dirty, p, n);
      TrimAbove(order, dirty, p, n - 1);
    } else {
      assert order[..p] + order[p + 1..] == order[..last];
    }
  }

  /** A dirty id at the cold end is kept, and the trim goes on above it. */
  lemma TrimAbove(order: seq<nat>, dirty: set<nat>, p: nat, n: nat)
    requires p < |order| - 1 && order[|order| - 1] in dirty
    ensures var front := order[..|order| - 1];
            Trim(order[..p] + order[p + 1..], dirty, n) == Trim(front[..p] + front[p + 1..], dirty, n) + [order[|order| - 1]]
  {
    var front, rest := order[..|order| - 1], order[..p] + order[p + 1..];
    assert rest[..|rest| - 1] == front[..p] + front[p + 1..];
    assert rest == rest[..|rest| - 1] + [order[|order| - 1]];
  }

  lemma {:induction false} TrimDirty(order: seq<nat>, dirty: set<nat>, n: nat)
    requires forall id | id in order :: id in dirty
    ensures Trim(order, dirty, n) == order
    decreases |order|
  {
    if order != [] && n > 0 {
      TrimDirty(order[..|order| - 1], dirty, n);
    }
  }

  lemma NothingToTrim(order: seq<nat>, e: Entries, n: nat)
    requires Lru.Members(order) == e.Keys && (n == 0 || Dirty(e) == e.Keys)
    ensures Trim(order, Dirty(e), n) == order
  {
    if n > 0 {
      forall id | id in order ensures id in Dirty(e) {
        assert id in Lru.Members(order);
      }
      TrimDirty(order, Dirty(e), n);
    }
  }

  /** The first clean id of the walk is the coldest clean one. */
  lemma ColdestClean(order: seq<nat>, e: Entries, k: nat)
    requires Lru.Members(order) == e.Keys && k < |Lru.Reversed(order)| && Lru.Reversed(order)[k] in e && !e[Lru.Reversed(order)[k]].dirty
    requires forall j | 0 <= j < k && Lru.Reversed(order)[j] in e :: e[Lru.Reversed(order)[j]].dirty
    ensures k < |order| && order[|order| - 1 - k] == Lru.Reversed(order)[k] && order[|order| - 1 - k] !in Dirty(e)
    ensures forall j | |order| - 1 - k < j < |order| :: order[j] in Dirty(e)
  {
    hide Lru.Reversed;
    Lru.ReversedAt(order, k);
    forall j | |order| - 1 - k < j < |order| ensures order[j] in Dirty(e) {
      Lru.ReversedAt(order, |order| - 1 - j);
      assert order[j] in Lru.Members(order);
      assert Lru.Reversed(order)[|order| - 1 - j] == order[j];
    }
  }

  /** Do `n` unsaved pages fit into the cache, or into the cache and the spillway together? */
  predicate Fits(n: nat, maxPages: nat, spillwayBytes: nat) {
    n <= maxPages || (spillwayBytes > 0 && Spillway.Bytes(n - maxPages, PAGE_SIZE) <= spillwayBytes)
  }

  lemma PendingSize(order: seq<nat>, e: Entries, dc: nat, c: map<nat, seq<byte>>, disk: seq<Image>)
    requires Coherent(order, e, dc, c, disk)
    ensures |Pending(e, c)| == |Dirty(e)| + |c| && |Dirty(e)| <= |e|
  {
    AllDirty(e);
    assert |c| == |c.Keys|;
    assert Dirty(e) !! c.Keys;
  }

  lemma TooManyDirty(e: Entries, c: map<nat, seq<byte>>)
    requires Dirty(e) == e.Keys
    ensures |Pending(e, c)| >= |e|
  {
    assert |e| == |e.Keys|;
    assert Pending(e, c) == e.Keys + (Pending(e, c) - e.Keys);
  }

  /** A dirty page at the hot end stays at the hot end. */
  ghost predicate HeadKept(dirty: set<nat>, order0: seq<nat>, order1: seq<nat>) {
    order0 != [] && order0[0] in dirty ==> order1 != [] && order1[0] == order0[0]
  }

  lemma WithoutHead(dirty: set<nat>, order: seq<nat>, id: nat)
    requires id !in dirty
    ensures HeadKept(dirty, order, Lru.Without(order, id))
  {
  }

  lemma NotDirty(e: Entries, id: nat)
    ensures id in Dirty(e) <==> id in e && e[id].dirty
  {
  }

  /** A walk that meets only dirty entries has met them all. */
  lemma AllWalked(order: seq<nat>, e: Entries)
    requires Lru.Members(order) == e.Keys
    ensures (forall id | id in Lru.Reversed(order) && id in e :: e[id].dirty) ==> Dirty(e) == e.Keys
  {
    hide Lru.Reversed;
    ReversedMembers(order);
    if forall id | id in Lru.Reversed(order) && id in e :: e[id].dirty {
      forall id | id in e ensures e[id].dirty {
        assert id in Lru.Members(order);
      }
    }
  }

  lemma EveryDirty(e: Entries, id: nat)
    requires Dirty(e) == e.Keys && id in e
    ensures e[id].dirty
  {
    assert id in Dirty(e);
  }

  lemma EntryId(order: seq<nat>, e: Entries, dc: nat, c: map<nat, seq<byte>>, disk: seq<Image>, id: nat)
    requires Coherent(order, e, dc, c, disk) && id in e
    ensures id <= U64_MAX && id !in c
  {
  }

  lemma {:induction false} ReversedMembers(s: seq<nat>)
    ensures forall x :: x in Lru.Reversed(s) <==> x in s
    ensures |Lru.Reversed(s)| == |s|
  {
    if s != [] {
      ReversedMembers(s[1..]);
    }
  }

  /** The walk starts at the cold end, and a cache over its cap has at least two entries. */
  lemma Tail(order: seq<nat>, e: Entries)
    requires Lru.Members(order) == e.Keys && |e| > 1 && Lru.NoDuplicates(order)
    ensures |order| > 1 && Lru.Reversed(order) != [] && Lru.Reversed(order)[0] == order[|order| - 1] && order[|order| - 1] in e
    ensures Lru.Without(order, order[|order| - 1]) == order[..|order| - 1]
  {
    hide Lru.Without, Lru.Reversed, Lru.NoDuplicates;
    MembersBound(order);
    assert |e| == |e.Keys|;
    assert order[|order| - 1] in Lru.Members(order);
    Lru.ReversedLast(order);
    Lru.WithoutAt(order, |order| - 1);
  }

  lemma {:induction false} MembersBound(s: seq<nat>)
    ensures |Lru.Members(s)| <= |s|
  {
    if s == [] {
      assert Lru.Members(s) == {};
    } else {
      MembersBound(s[1..]);
      assert Lru.Members(s) == Lru.Members(s[1..]) + {s[0]};
    }
  }

  lemma PutAnew(e: Entries, id: nat, x: Entry)
    ensures (e - {id})[id := x] == e[id := x]
  {
  }

  lemma PutBack(e: Entries, id: nat, x: Entry)
    requires id in e
    ensures (e - {id})[id := x] == e[id := x] && e[id := x].Keys == e.Keys
  {
  }

  /** The coldest entry went to the spillway with its stamp settled: if it owed one, what was spilled verifies. */
  ghost predicate SpilledTail(hash: Hash, order: seq<nat>, e: Entries, c: map<nat, seq<byte>>, e': Entries, c': map<nat, seq<byte>>) {
    && |order| > 1 && order[|order| - 1] in e
    && var v := order[|order| - 1];
       && e' == e - {v} && v !in c && c' == c[v := Settled(hash, e[v])]
       && (e[v].needsStamp ==> Stamped(hash, Settled(hash, e[v])))
  }

  /** The cold-end entry moved to the spillway. */
  lemma TailSpilled(hash: Hash, order: seq<nat>, e: Entries, dc: nat, c: map<nat, seq<byte>>, disk: seq<Image>,
                    v: nat, e': Entries, c': map<nat, seq<byte>>)
    requires Coherent(order, e, dc, c, disk) && Dirty(e) == e.Keys && |e| > 1 && Lru.NoDuplicates(order)
    requires |order| > 0 && v == order[|order| - 1] && v in e && e' == e - {v} && c' == c[v := Settled(hash, e[v])]
    ensures dc > 0 && Coherent(Lru.Without(order, v), e', dc - 1, c', disk)
    ensures View(e', c', disk) == View(e, c, disk) && Pending(e', c') == Pending(e, c)
    ensures Dirty(e') == e'.Keys && |e'| == |e| - 1 && |order| > 1
    ensures Lru.Without(order, v) == order[..|order| - 1] && SoundIds(hash, e', c', disk) == SoundIds(hash, e, c, disk)
    ensures SpilledTail(hash, order, e, c, e', c') && Moved(hash, e, c, e', c')
  {
    hide Consistent, View, Dirty, Lru.Reversed, Settled, Lru.Without, Pending, SoundIds, Stamped, Moved;
    EntryId(order, e, dc, c, disk, v);
    MovedTail(hash, e, c, v, c');
    SettledSound(hash, e[v]);
    SoundSpill(hash, e, c, disk, v);
    Tail(order, e);
    EveryDirty(e, v);
    SpillDirty(hash, e, c, disk, v);
    DirtyDrop(e, v);
    CountDrop(e, v);
    SizeDrop(e, v);
    Lru.WithoutMembers(order, v);
  }

  /** The cold-end entry put back, its deferred stamp settled. */
  lemma TailRefused(hash: Hash, order: seq<nat>, e: Entries, dc: nat, c: map<nat, seq<byte>>, disk: seq<Image>, v: nat, e': Entries)
    requires Coherent(order, e, dc, c, disk) && Dirty(e) == e.Keys && |e| > 1 && Lru.NoDuplicates(order)
    requires |order| > 0 && v == order[|order| - 1] && v in e
    requires e' == (e - {v})[v := Entry(Settled(hash, e[v]), e[v].dirty, false)]
    ensures Coherent(order, e', dc, c, disk) && View(e', c, disk) == View(e, c, disk) && Pending(e', c) == Pending(e, c)
    ensures Dirty(e') == e'.Keys && e'.Keys == e.Keys && SoundIds(hash, e', c, disk) == SoundIds(hash, e, c, disk)
    ensures Moved(hash, e, c, e', c)
    ensures Lru.Without(Lru.Without(order, v), v) + [v] == order
  {
    hide Consistent, View, Dirty, Lru.Reversed, Settled, Lru.Without, Pending, Lru.NoDuplicates, SoundIds;
    SettledTwice(hash, e[v]);
    SoundSpill(hash, e, c, disk, v);
    Tail(order, e);
    EveryDirty(e, v);
    SettleInPlace(hash, e, c, disk, v);
    PutBack(e, v, Entry(Settled(hash, e[v]), e[v].dirty, false));
    Lru.WithoutMembers(order, v);
    Lru.WithoutAbsent(Lru.Without(order, v), v);
    MovedSettled(hash, e, c, e');
    SameSize(e, e');
  }

  lemma SettledTwice(hash: Hash, x: Entry)
    ensures Settled(hash, Entry(Settled(hash, x), x.dirty, false)) == Settled(hash, x)
  {
  }

  /**
   Making room moves pages and nothing else: what is still cached is as it was up to its stamp, what
   was spilled still is, and what is newly spilled was cached and carries its settled image.
   */
  ghost predicate Moved(hash: Hash, e0: Entries, c0: map<nat, seq<byte>>, e1: Entries, c1: map<nat, seq<byte>>) {
    && (forall id | id in e1 :: id in e0 && Settled(hash, e1[id]) == Settled(hash, e0[id]) && e1[id].dirty == e0[id].dirty)
    && (forall id | id in c0 :: id in c1 && c1[id] == c0[id])
    && (forall id | id in c1 && id !in c0 :: id in e0 && c1[id] == Settled(hash, e0[id]))
  }

  lemma MovedNone(hash: Hash, e: Entries, c: map<nat, seq<byte>>)
    ensures Moved(hash, e, c, e, c)
  {
  }

  lemma MovedAfter(hash: Hash, e0: Entries, e1: Entries, c: map<nat, seq<byte>>, e2: Entries, c2: map<nat, seq<byte>>)
    requires (forall id | id in e1 :: id in e0 && e1[id] == e0[id]) && Moved(hash, e1, c, e2, c2)
    ensures Moved(hash, e0, c, e2, c2)
  {
    hide Settled;
  }

  lemma MovedTrans(hash: Hash, e0: Entries, c0: map<nat, seq<byte>>, e1: Entries, c1: map<nat, seq<byte>>,
                   e2: Entries, c2: map<nat, seq<byte>>)
    requires Moved(hash, e0, c0, e1, c1) && Moved(hash, e1, c1, e2, c2)
    ensures Moved(hash, e0, c0, e2, c2)
  {
    hide Settled;
  }

  lemma MovedTail(hash: Hash, e: Entries, c: map<nat, seq<byte>>, v: nat, c1: map<nat, seq<byte>>)
    requires v in e && v !in c && c1 == c[v := Settled(hash, e[v])]
    ensures Moved(hash, e, c, e - {v}, c1)
  {
    hide Settled;
  }

  lemma MovedSettled(hash: Hash, e: Entries, c: map<nat, seq<byte>>, e1: Entries)
    requires e1.Keys == e.Keys && Dirty(e) == e.Keys && Dirty(e1) == e1.Keys
    requires forall id | id in e1 :: Settled(hash, e1[id]) == Settled(hash, e[id])
    ensures Moved(hash, e, c, e1, c)
  {
    hide Settled;
    forall id | id in e1 ensures e1[id].dirty == e[id].dirty {
      assert id in Dirty(e1) && id in Dirty(e);
    }
  }

  lemma TailCount(e: Entries, order: seq<nat>)
    requires Dirty(e) == e.Keys && |e| > 1
    ensures |Dirty(e)| > 1
  {
    assert |e| == |e.Keys|;
  }

  lemma SameSize(e: Entries, e': Entries)
    requires e.Keys == e'.Keys
    ensures |e| == |e'|
  {
    assert |e| == |e.Keys| && |e'| == |e'.Keys|;
  }

  /** Why a page could not be brought into the cache. */
  ghost predicate Refused(error: Error, id: nat, c: map<nat, seq<byte>>, disk: seq<Image>, hash: Hash) {
    || error == CacheFull || error == SpillwayFull
    || (error == InvalidPageId(id) && id !in c && id >= |disk|)
    || (error == ChecksumMismatch(id) && id !in c && id < |disk| && !Stamped(hash, disk[id]))
  }

  // ----- what each step does to the parts together -----

  lemma FrontMembers(order: seq<nat>, id: nat)
    ensures Lru.Members([id] + Lru.Without(order, id)) == Lru.Members(order) + {id}
  {
    Lru.WithoutMembers(order, id);
  }

  lemma BackMembers(order: seq<nat>, id: nat)
    ensures Lru.Members(Lru.Without(order, id) + [id]) == Lru.Members(order) + {id}
  {
    Lru.WithoutMembers(order, id);
  }

  lemma SpilledIsPage(order: seq<nat>, e: Entries, dc: nat, c: map<nat, seq<byte>>, disk: seq<Image>, id: nat)
    requires Coherent(order, e, dc, c, disk) && id in c
    ensures |c[id]| == PAGE_SIZE && id !in e
  {
  }

  lemma HeadIn(order: seq<nat>, e: Entries, dc: nat, c: map<nat, seq<byte>>, disk: seq<Image>)
    requires Coherent(order, e, dc, c, disk)
    ensures order != [] ==> order[0] in e
    ensures order != [] && e[order[0]].dirty ==> order[0] in Dirty(e)
  {
    hide Consistent;
    if order != [] {
      assert order[0] in Lru.Members(order);
    }
  }

  lemma CoherentTouch(order: seq<nat>, e: Entries, dc: nat, c: map<nat, seq<byte>>, disk: seq<Image>, id: nat)
    requires Coherent(order, e, dc, c, disk) && id in e
    ensures Coherent([id] + Lru.Without(order, id), e, dc, c, disk)
  {
    hide Consistent, Dirty, Lru.Without;
    FrontMembers(order, id);
  }

  lemma CoherentEvict(hash: Hash, order: seq<nat>, e: Entries, dc: nat, c: map<nat, seq<byte>>, disk: seq<Image>, id: nat)
    requires Coherent(order, e, dc, c, disk) && id in e && !e[id].dirty
    ensures Coherent(Lru.Without(order, id), e - {id}, dc, c, disk)
    ensures View(e - {id}, c, disk) == View(e, c, disk) && Pending(e - {id}, c) == Pending(e, c)
    ensures SoundIds(hash, e - {id}, c, disk) == SoundIds(hash, e, c, disk)
    ensures Dirty(e - {id}) == Dirty(e) && |e - {id}| == |e| - 1 && HeadKept(Dirty(e), order, Lru.Without(order, id))
  {
    NotDirty(e, id);
    hide Consistent, Dirty, Lru.Without, View, Pending, Lru.Members, SoundIds, HeadKept;
    EvictClean(e, c, disk, id);
    SoundEvict(hash, e, c, disk, id);
    SizeDrop(e, id);
    CountDrop(e, id);
    DirtyDrop(e, id);
    assert Dirty(e) - {id} == Dirty(e);
    DropMembers(order, id);
    WithoutHead(Dirty(e), order, id);
  }

  lemma CoherentLoadSpilled(order: seq<nat>, e: Entries, dc: nat, c: map<nat, seq<byte>>, disk: seq<Image>, id: nat, buf: Image)
    requires Coherent(order, e, dc, c, disk) && id in c && c[id] == buf && id !in e
    ensures Coherent([id] + Lru.Without(order, id), e[id := Entry(buf, true, false)], dc + 1, c - {id}, disk)
    ensures View(e[id := Entry(buf, true, false)], c - {id}, disk) == View(e, c, disk)
    ensures Pending(e[id := Entry(buf, true, false)], c - {id}) == Pending(e, c)
  {
    NotDirty(e, id);
    hide Consistent, Dirty, Lru.Without, View, Pending, Lru.Members;
    FrontMembers(order, id);
    LoadSpilled(e, c, disk, id, buf);
    CountPut(e, id, Entry(buf, true, false));
  }

  lemma CoherentLoadDisk(order: seq<nat>, e: Entries, dc: nat, c: map<nat, seq<byte>>, disk: seq<Image>, id: u64)
    requires Coherent(order, e, dc, c, disk) && id !in c && id !in e && id < |disk|
    ensures Coherent([id] + Lru.Without(order, id), e[id := Entry(disk[id], false, false)], dc, c, disk)
    ensures View(e[id := Entry(disk[id], false, false)], c, disk) == View(e, c, disk)
    ensures Pending(e[id := Entry(disk[id], false, false)], c) == Pending(e, c)
  {
    NotDirty(e, id);
    hide Consistent, Dirty, Lru.Without, View, Pending, Lru.Members;
    FrontMembers(order, id);
    LoadDisk(e, c, disk, id);
    CountPut(e, id, Entry(disk[id], false, false));
  }

  /** A cached page made dirty without changing its bytes. */
  lemma CoherentDirty(order: seq<nat>, e: Entries, dc: nat, c: map<nat, seq<byte>>, disk: seq<Image>, id: nat, stamp: bool)
    requires Coherent(order, e, dc, c, disk) && id in e
    ensures Coherent(order, e[id := Entry(e[id].buf, true, stamp)], if e[id].dirty then dc else dc + 1, c, disk)
    ensures View(e[id := Entry(e[id].buf, true, stamp)], c, disk) == View(e, c, disk)
    ensures Pending(e[id := Entry(e[id].buf, true, stamp)], c) == Pending(e, c) + {id}
    ensures e[id].dirty ==> Pending(e, c) + {id} == Pending(e, c)
  {
    hide Consistent, Dirty, Lru.Without, View, Pending, Lru.Members, Body;
    NotDirty(e, id);
    SameBody(e, c, disk, id);
    DirtyPending(e, c, id);
    NotSpilled(e, c, disk, id);
    PutDirty(e, c, disk, id, Entry(e[id].buf, true, stamp));
    CountPut(e, id, Entry(e[id].buf, true, stamp));
  }

  lemma SameBody(e: Entries, c: map<nat, seq<byte>>, disk: seq<Image>, id: nat)
    requires id in e
    ensures View(e, c, disk)[id := Body(e[id].buf)] == View(e, c, disk)
  {
  }

  lemma DirtyPending(e: Entries, c: map<nat, seq<byte>>, id: nat)
    ensures id in Dirty(e) ==> Pending(e, c) + {id} == Pending(e, c)
  {
  }

  lemma NotSpilled(e: Entries, c: map<nat, seq<byte>>, disk: seq<Image>, id: nat)
    requires Consistent(e, c, disk) && id in e
    ensures c - {id} == c && id <= U64_MAX
  {
  }

  lemma CoherentWrite(order: seq<nat>, e: Entries, dc: nat, c: map<nat, seq<byte>>, disk: seq<Image>, id: nat, buf: Image)
    requires Coherent(order, e, dc, c, disk) && id in e && e[id].dirty
    ensures Coherent(order, e[id := e[id].(buf := buf)], dc, c, disk)
    ensures View(e[id := e[id].(buf := buf)], c, disk) == View(e, c, disk)[id := Body(buf)]
    ensures Pending(e[id := e[id].(buf := buf)], c) == Pending(e, c)
  {
    hide Consistent, Dirty, Lru.Without, View, Pending, Lru.Members, Body;
    NotDirty(e, id);
    DirtyPending(e, c, id);
    NotSpilled(e, c, disk, id);
    PutDirty(e, c, disk, id, e[id].(buf := buf));
    CountPut(e, id, e[id].(buf := buf));
  }

  lemma CoherentNew(order: seq<nat>, e: Entries, dc: nat, c: map<nat, seq<byte>>, disk: seq<Image>, id: u64, x: Entry)
    requires Coherent(order, e, dc, c, disk) && id !in Pending(e, c) && x.dirty
    ensures Coherent([id] + Lru.Without(order, id), e[id := x], dc + 1, c, disk)
    ensures View(e[id := x], c, disk) == View(e, c, disk)[id := Body(x.buf)]
    ensures Pending(e[id := x], c) == Pending(e, c) + {id}
    ensures id in Dirty(e[id := x])
  {
    NotPending(e, c, id);
    NotDirty(e, id);
    IsConsistent(order, e, dc, c, disk);
    hide Coherent, Consistent, Dirty, Lru.Without, View, Pending, Lru.Members, Body;
    CoherentReissue(order, e, dc, c, disk, id, x);
    PutDirty(e, c, disk, id, x);
    DirtyPut(e, id, x);
  }

  /** A page of zeros owes no stamp, so it can be read back only if zeros happen to be stamped. */
  ghost function Blanked(hash: Hash, sounds: iset<nat>, id: nat): iset<nat> {
    if Stamped(hash, Zeros()) then sounds + iset{id} else sounds - iset{id}
  }

  lemma SoundNew(hash: Hash, e: Entries, c: map<nat, seq<byte>>, disk: seq<Image>, id: nat)
    requires id !in Pending(e, c)
    ensures SoundIds(hash, e[id := Entry(Zeros(), true, false)], c, disk) == Blanked(hash, SoundIds(hash, e, c, disk), id)
  {
    hide Stamped, SoundIds, Zeros;
    NotPending(e, c, id);
    SoundPut(hash, e, c, disk, id, Entry(Zeros(), true, false));
  }

  lemma NotPending(e: Entries, c: map<nat, seq<byte>>, id: nat)
    requires id !in Pending(e, c)
    ensures id !in Dirty(e) && c - {id} == c
  {
  }

  lemma CoherentReissue(order: seq<nat>, e: Entries, dc: nat, c: map<nat, seq<byte>>, disk: seq<Image>, id: u64, x: Entry)
    requires Coherent(order, e, dc, c, disk) && x.dirty
    ensures id in e && e[id].dirty ==> dc > 0
    ensures Coherent([id] + Lru.Without(order, id), e[id := x], if id in e && e[id].dirty then dc else dc + 1, c - {id}, disk)
  {
    hide Consistent, Dirty, Lru.Without, View, Pending, Lru.Members, Body;
    FrontMembers(order, id);
    KeysPut(e, id, x);
    ConsistentPut(e, c, disk, id, x);
    CountPut(e, id, x);
    NotDirty(e, id);
  }

  lemma KeysPut(e: Entries, id: nat, x: Entry)
    ensures e[id := x].Keys == e.Keys + {id}
  {
  }

  lemma ConsistentPut(e: Entries, c: map<nat, seq<byte>>, disk: seq<Image>, id: u64, x: Entry)
    requires Consistent(e, c, disk) && x.dirty
    ensures Consistent(e[id := x], c - {id}, disk)
  {
  }

  // ----- what a flush writes -----

  /** The image the file receives for an unsaved page. */
  ghost function Outgoing(hash: Hash, e: Entries, c: map<nat, seq<byte>>, id: nat): seq<byte> {
    if id in e then Settled(hash, e[id]) else if id in c then c[id] else []
  }

  /** `disk1` is `disk0` with the pages in `W` written, and zero pages in any gap this opened. */
  ghost predicate DiskGot(hash: Hash, e: Entries, c: map<nat, seq<byte>>, disk0: seq<Image>, disk1: seq<Image>, W: set<nat>) {
    && |disk0| <= |disk1| && (forall q | q in W :: q < |disk1|)
    && forall q: nat | q < |disk1| ::
         disk1[q] == if q in W then Outgoing(hash, e, c, q) else if q < |disk0| then disk0[q] else Zeros()
  }

  lemma DiskGotNone(hash: Hash, e: Entries, c: map<nat, seq<byte>>, disk: seq<Image>)
    ensures DiskGot(hash, e, c, disk, disk, {})
  {
  }

  lemma DiskGotMore(hash: Hash, e: Entries, c: map<nat, seq<byte>>, disk0: seq<Image>, disk1: seq<Image>, W: set<nat>, id: nat, buf: Image)
    requires DiskGot(hash, e, c, disk0, disk1, W) && buf == Outgoing(hash, e, c, id)
    ensures DiskGot(hash, e, c, disk0, DiskPut(disk1, id, buf), W + {id})
  {
    hide DiskPut, Outgoing, Zeros;
    DiskPutAt(disk1, id, buf, id);
    forall q: nat | q < |DiskPut(disk1, id, buf)|
      ensures DiskPut(disk1, id, buf)[q] == if q in W + {id} then Outgoing(hash, e, c, q) else if q < |disk0| then disk0[q] else Zeros()
    {
      DiskPutAt(disk1, id, buf, q);
    }
  }

  lemma DiskGotEntry(hash: Hash, e: Entries, c: map<nat, seq<byte>>, disk0: seq<Image>, disk1: seq<Image>, W: set<nat>, id: nat)
    requires DiskGot(hash, e, c, disk0, disk1, W) && id in e
    ensures DiskGot(hash, e, c, disk0, DiskPut(disk1, id, Settled(hash, e[id])), W + {id})
  {
    hide DiskGot, DiskPut, Settled;
    DiskGotMore(hash, e, c, disk0, disk1, W, id, Settled(hash, e[id]));
  }

  /** A page that was stamped, or whose stamp was deferred, passes the checksum when it is read back. */
  lemma SavedVerifies(hash: Hash, e: Entries, c: map<nat, seq<byte>>, disk0: seq<Image>, disk1: seq<Image>, id: nat)
    requires DiskGot(hash, e, c, disk0, disk1, Pending(e, c)) && id in Pending(e, c)
    requires if id in e then e[id].needsStamp || Stamped(hash, e[id].buf) else |c[id]| == PAGE_SIZE && Stamped(hash, c[id])
    ensures id < |disk1| && Stamped(hash, disk1[id])
  {
    hide Stamped, Stamp, Pending;
    assert disk1[id] == Outgoing(hash, e, c, id);
    if id in e {
      SettledBody(hash, e[id]);
    }
  }

  /** The drain so far: what left the spillway was written, once, after `before`. */
  ghost predicate Draining(hash: Hash, e0: Entries, c0: map<nat, seq<byte>>, disk0: seq<Image>, disk: seq<Image>,
                           c: map<nat, seq<byte>>, before: set<nat>, writes: seq<nat>)
  {
    && c.Keys <= c0.Keys && (forall id | id in c :: c[id] == c0[id]) && e0.Keys !! c0.Keys && before !! c0.Keys
    && Lru.NoDuplicates(writes) && Lru.Members(writes) == before + (c0.Keys - c.Keys)
    && DiskGot(hash, e0, c0, disk0, disk, Lru.Members(writes))
  }

  lemma DrainingStep(hash: Hash, e0: Entries, c0: map<nat, seq<byte>>, disk0: seq<Image>, disk: seq<Image>,
                     c: map<nat, seq<byte>>, before: set<nat>, writes: seq<nat>, id: nat)
    requires Draining(hash, e0, c0, disk0, disk, c, before, writes) && id in c && |c[id]| == PAGE_SIZE
    ensures Draining(hash, e0, c0, disk0, DiskPut(disk, id, c[id]), c - {id}, before, writes + [id])
    ensures |c - {id}| == |c| - 1
  {
    hide DiskGot, DiskPut, Lru.NoDuplicates, Lru.Members, Settled;
    LogMore(writes, id);
    DiskGotMore(hash, e0, c0, disk0, disk, Lru.Members(writes), id, c[id]);
    assert before + (c0.Keys - (c - {id}).Keys) == before + (c0.Keys - c.Keys) + {id};
    assert |c| == |c.Keys| && |c - {id}| == |(c - {id}).Keys| && (c - {id}).Keys == c.Keys - {id};
  }

  lemma DrainedAll(hash: Hash, e0: Entries, c0: map<nat, seq<byte>>, disk0: seq<Image>, disk: seq<Image>,
                   c: map<nat, seq<byte>>, before: set<nat>, writes: seq<nat>)
    requires Draining(hash, e0, c0, disk0, disk, c, before, writes) && |c| == 0
    ensures c == map[] && Lru.Members(writes) == before + c0.Keys && Lru.NoDuplicates(writes)
    ensures DiskGot(hash, e0, c0, disk0, disk, Lru.Members(writes))
  {
    hide DiskGot, Lru.NoDuplicates, Lru.Members;
    assert |c| == |c.Keys|;
    assert c.Keys == {};
  }

  lemma LogNone()
    ensures Lru.Members([]) == {} && Lru.NoDuplicates([])
  {
  }

  lemma LogMore(writes: seq<nat>, id: nat)
    ensures Lru.Members(writes + [id]) == Lru.Members(writes) + {id}
    ensures Lru.NoDuplicates(writes) && id !in Lru.Members(writes) ==> Lru.NoDuplicates(writes + [id])
  {
  }

  lemma NoneIsAll(e: Entries)
    ensures Dirty(e) == {} && Dirty(e) == e.Keys ==> |e| == 0
  {
  }

  lemma DirtyKeys(e: Entries)
    ensures Dirty(e) <= e.Keys
  {
  }

  lemma SpilledId(order: seq<nat>, e: Entries, dc: nat, c: map<nat, seq<byte>>, disk: seq<Image>, id: nat)
    requires Coherent(order, e, dc, c, disk) && id in c
    ensures id <= U64_MAX && |c[id]| == PAGE_SIZE
  {
  }

  lemma Apart(order: seq<nat>, e: Entries, dc: nat, c: map<nat, seq<byte>>, disk: seq<Image>)
    requires Coherent(order, e, dc, c, disk)
    ensures e.Keys !! c.Keys && Dirty(e) <= e.Keys
  {
  }

  lemma IsConsistent(order: seq<nat>, e: Entries, dc: nat, c: map<nat, seq<byte>>, disk: seq<Image>)
    requires Coherent(order, e, dc, c, disk)
    ensures Consistent(e, c, disk)
  {
  }

  lemma PendingIs(e: Entries, c: map<nat, seq<byte>>)
    ensures Pending(e, c) == Dirty(e) + c.Keys
  {
  }

  lemma NoneDirty(order: seq<nat>, e: Entries, dc: nat, c: map<nat, seq<byte>>, disk: seq<Image>)
    requires Coherent(order, e, dc, c, disk) && Dirty(e) == {}
    ensures dc == 0
  {
  }

  lemma AllClean(order: seq<nat>, e: Entries, dc: nat, disk: seq<Image>)
    requires Coherent(order, e, dc, map[], disk) && Dirty(e) == {}
    ensures Coherent(order, e, dc, map[], disk) && View(e, map[], disk) == View(map[], map[], disk)
    ensures forall id | id in e :: !e[id].dirty
  {
    hide View;
    forall id | id in e ensures !e[id].dirty {
      assert id !in Dirty(e);
    }
    assert Clean(e) == e;
    OnlyClean(e, map[], disk);
  }

  lemma CoherentFlush(hash: Hash, order: seq<nat>, e: Entries, dc: nat, c: map<nat, seq<byte>>, disk: seq<Image>, id: nat)
    requires Coherent(order, e, dc, c, disk) && id in e && id in Dirty(e)
    ensures dc > 0
    ensures Coherent(order, e[id := Entry(Settled(hash, e[id]), false, false)], dc - 1, c, DiskPut(disk, id, Settled(hash, e[id])))
    ensures View(e[id := Entry(Settled(hash, e[id]), false, false)], c, DiskPut(disk, id, Settled(hash, e[id]))) == View(e, c, disk)
    ensures Pending(e[id := Entry(Settled(hash, e[id]), false, false)], c) == Pending(e, c) - {id}
    ensures Dirty(e[id := Entry(Settled(hash, e[id]), false, false)]) == Dirty(e) - {id}
  {
    hide Consistent, Dirty, View, Pending, Settled, DiskPut, Lru.Members;
    NotDirty(e, id);
    FlushEntry(hash, e, c, disk, id);
    DirtyPut(e, id, Entry(Settled(hash, e[id]), false, false));
    CountPut(e, id, Entry(Settled(hash, e[id]), false, false));
  }

  lemma CoherentDrain(order: seq<nat>, e: Entries, dc: nat, c: map<nat, seq<byte>>, disk: seq<Image>, id: nat, buf: Image)
    requires Coherent(order, e, dc, c, disk) && id in c && c[id] == buf
    ensures id !in e && Dirty(e[id := Entry(buf, false, false)]) == Dirty(e)
    ensures Coherent([id] + Lru.Without(order, id), e[id := Entry(buf, false, false)], dc, c - {id}, DiskPut(disk, id, buf))
    ensures Coherent(Lru.Without(order, id) + [id], e[id := Entry(buf, false, false)], dc, c - {id}, DiskPut(disk, id, buf))
    ensures View(e[id := Entry(buf, false, false)], c - {id}, DiskPut(disk, id, buf)) == View(e, c, disk)
  {
    hide Consistent, Dirty, View, Pending, DiskPut, Lru.Members, Lru.Without;
    SpilledIsPage(order, e, dc, c, disk, id);
    NotDirty(e, id);
    FlushSpilled(e, c, disk, id, buf);
    DirtyPut(e, id, Entry(buf, false, false));
    assert Dirty(e) - {id} == Dirty(e);
    FrontMembers(order, id);
    BackMembers(order, id);
  }

  lemma DropMembers(order: seq<nat>, id: nat)
    ensures Lru.Members(Lru.Without(order, id)) == Lru.Members(order) - {id}
  {
    Lru.WithoutMembers(order, id);
  }

  lemma CoherentDiscard(order: seq<nat>, e: Entries, dc: nat, c: map<nat, seq<byte>>, disk: seq<Image>)
    requires Coherent(order, e, dc, c, disk)
    ensures Consistent(Clean(e), map[], disk) && |Dirty(Clean(e))| == 0 && Pending(Clean(e), map[]) == {}
    ensures View(Clean(e), map[], disk) == View(map[], map[], disk) && Lru.Members(order) == e.Keys
  {
    hide Consistent, Dirty, View, Pending;
    OnlyClean(e, c, disk);
  }

  lemma NoDirtyLeft(order: seq<nat>, e: Entries, disk: seq<Image>)
    requires Consistent(Clean(e), map[], disk) && |Dirty(Clean(e))| == 0
    ensures e - Dirty(e) == Clean(e)
    ensures Lru.Members(order) == Clean(e).Keys ==> Coherent(order, Clean(e), 0, map[], disk)
  {
    hide Consistent;
  }

  lemma NoneAbove(e: Entries, above: set<nat>, n: nat)
    requires above == set id | id in e && id >= n
    ensures e - (above - {}) == EntriesBelow(e, n)
  {
  }

  lemma CoherentDrop(order: seq<nat>, e: Entries, dc: nat, c: map<nat, seq<byte>>, disk: seq<Image>, id: nat)
    requires Coherent(order, e, dc, c, disk) && id in e
    ensures e[id].dirty ==> dc > 0
    ensures Coherent(Lru.Without(order, id), e - {id}, if e[id].dirty then dc - 1 else dc, c, disk)
  {
    NotDirty(e, id);
    CountDrop(e, id);
    DropMembers(order, id);
    hide Dirty, Lru.Members, Lru.Without;
  }

  lemma CoherentCut(order: seq<nat>, e0: Entries, e: Entries, dc: nat, c: map<nat, seq<byte>>, disk: seq<Image>, n: nat)
    requires Coherent(order, e, dc, c, disk) && Consistent(e0, c, disk) && e == EntriesBelow(e0, n)
    ensures Coherent(order, e, dc, Spillway.Below(c, n), Resized(disk, n))
    ensures forall id: nat :: View(e, Spillway.Below(c, n), Resized(disk, n))[id]
                           == if id < n then View(e0, c, disk)[id] else Body(Zeros())
  {
    hide Dirty, Lru.Members, Consistent, View, Resized, EntriesBelow;
    Cut(e0, c, disk, n, Spillway.Below(c, n));
  }

  /** A cache of one page that holds one page, and a miss: two entries. */
  method MissOverCap(hash: Hash) returns (cache: PageCache)
    ensures fresh(cache) && cache.maxPages == 1 && |cache.entries| == 2
  {
    hide Coherent, View, Pending, Lru.LruIndex.Valid, Spillway.Spillway.Valid, Stamp, Stamped, Body, Zeros;
    var page := Stamp(hash, Zeros());
    StampVerifies(hash, Zeros());
    cache := new PageCache([page, page], PAGE_SIZE, 0, LruTail, hash);
    var first := cache.Get(0);
    assert first.Ok?;
    Single(cache.entries, 0, 1);
    var second := cache.Get(1);
  }

  lemma Single(e: Entries, id: nat, q: nat)
    requires |e| == 1 && id in e && q != id
    ensures q !in e
  {
    SizeDrop(e, id);
    assert e - {id} == map[];
    assert q !in e - {id};
  }
}
