/**
 Whole runs of the cache, flushes and rollbacks included. Against the record of what a run did,
 every read that succeeded returned the bytes last written to that page, whatever was evicted,
 spilled, reloaded or drained in between; and a rollback goes back to the last flush.
 */
module CacheRun {
  import opened Pages
  import opened CacheState
  import opened PageCache
  import Lru
  import Spillway

  datatype Op =
    | Read(id: u64) | Put(id: u64, buf: Image, deferStamp: bool) | Allocate | Reissue(id: u64) | Copy(src: u64, dst: u64) | Save
    | Undo(length: nat)

  /** What an operation did, as its caller saw it. */
  datatype Event =
    | Got(id: nat, body: seq<byte>) | Stored(id: nat, body: seq<byte>) | Zeroed(id: nat) | Copied(src: nat, dst: nat) | Saved
    | Undone(length: nat) | Failed(error: Error) | Nothing

  /** An operation reports itself and its own arguments, or a failure; an allocation that has no id to give reports nothing. */
  predicate Matches(op: Op, e: Event) {
    match op
    case Read(id) => e.Failed? || (e.Got? && e.id == id)
    case Put(id, buf, _) => e.Failed? || e == Stored(id, Body(buf))
    case Allocate => e == Nothing || e.Zeroed?
    case Reissue(id) => e == Zeroed(id)
    case Copy(src, dst) => e.Failed? || e == Copied(src, dst)
    case Save => e == Saved
    case Undo(length) => e == Undone(length)
  }

  type Flat = imap<nat, seq<byte>>

  /** The reference: the page map now, and as the last flush or rollback left it. */
  datatype Ref = Ref(flat: Flat, saved: Flat)

  /** The pages below `n`, and zeros above. */
  ghost function Upto(flat: Flat, n: nat): Flat {
    imap id: nat :: if id < n && id in flat then flat[id] else Body(Zeros())
  }

  ghost function Step(s: Ref, e: Event): Ref {
    match e
    case Stored(id, body) => s.(flat := s.flat[id := body])
    case Zeroed(id) => s.(flat := s.flat[id := Body(Zeros())])
    case Copied(src, dst) => if src in s.flat then s.(flat := s.flat[dst := s.flat[src]]) else s
    case Saved => s.(saved := s.flat)
    case Undone(n) => Ref(Upto(s.saved, n), Upto(s.saved, n))
    case _ => s
  }

  ghost function Replay(s: Ref, events: seq<Event>): Ref {
    if events == [] then s else Step(Replay(s, events[..|events| - 1]), events[|events| - 1])
  }

  /** Every read returned what the reference held at that moment. */
  ghost predicate Truthful(s: Ref, events: seq<Event>) {
    forall i | 0 <= i < |events| && events[i].Got? ::
      events[i].id in Replay(s, events[..i]).flat && Replay(s, events[..i]).flat[events[i].id] == events[i].body
  }

  /** Can an event change page `id`: by a write, a copy onto it or a rollback? */
  predicate Touches(e: Event, id: nat) {
    (e.Stored? && e.id == id) || (e.Zeroed? && e.id == id) || (e.Copied? && e.dst == id) || e.Undone?
  }

  /** In the reference, a page holds what the last event that touched it left there. */
  lemma {:induction false} LastStore(s: Ref, events: seq<Event>, i: nat, id: nat)
    requires i < |events| && Touches(events[i], id) && id in s.flat && id in s.saved
    requires forall j | i < j < |events| :: !Touches(events[j], id)
    requires events[i].Copied? ==> events[i].src in Replay(s, events[..i]).flat
    ensures id in Replay(s, events).flat
    ensures Replay(s, events).flat[id] ==
            match events[i] {
              case Stored(_, body) => body
              case Copied(src, _) => Replay(s, events[..i]).flat[src]
              case Undone(length) => Upto(Replay(s, events[..i]).saved, length)[id]
              case _ => Body(Zeros())
            }
  {
    var n := |events| - 1;
    if i < n {
      assert !Touches(events[n], id);
      assert events[..n][..i] == events[..i];
      LastStore(s, events[..n], i, id);
    }
  }

  /** In the reference, a page nothing touched is as it was. */
  lemma {:induction false} NeverTouched(s: Ref, events: seq<Event>, id: nat)
    requires id in s.flat && forall j | 0 <= j < |events| :: !Touches(events[j], id)
    ensures id in Replay(s, events).flat && Replay(s, events).flat[id] == s.flat[id]
  {
    var n := |events| - 1;
    if events != [] {
      assert !Touches(events[n], id);
      NeverTouched(s, events[..n], id);
    }
  }

  /** In the reference, a rollback to `length` pages restores what the last flush saved, whatever was written since. */
  lemma {:induction false} BackToSave(s: Ref, events: seq<Event>, i: nat, length: nat)
    requires i <= |events|
    requires forall j | i <= j < |events| :: !events[j].Saved? && !events[j].Undone?
    ensures Replay(s, events).saved == Replay(s, events[..i]).saved
    ensures Step(Replay(s, events), Undone(length)).flat == Upto(Replay(s, events[..i]).saved, length)
  {
    hide Upto;
    var n := |events| - 1;
    if i < |events| {
      BackToSave(s, events[..n], i, length);
      assert events[..n][..i] == events[..i];
    } else {
      assert events[..i] == events;
    }
  }

  lemma TruthfulMore(s: Ref, events: seq<Event>, e: Event)
    requires Truthful(s, events)
    requires e.Got? ==> e.id in Replay(s, events).flat && Replay(s, events).flat[e.id] == e.body
    ensures Truthful(s, events + [e]) && Replay(s, events + [e]) == Step(Replay(s, events), e)
  {
    var more := events + [e];
    assert more[..|events|] == events;
    forall i | 0 <= i < |more| && more[i].Got?
      ensures more[i].id in Replay(s, more[..i]).flat && Replay(s, more[..i]).flat[more[i].id] == more[i].body
    {
      assert more[..i] == events[..i];
    }
  }

  /** What the cache shows, and what its file shows. */
  ghost function Shown(cache: PageCache): Ref
    reads cache, cache.spillway
  {
    Ref(cache.Flat(), View(map[], map[], cache.disk))
  }

  /** Every unsaved page lies below the next id to be handed out. */
  ghost predicate Ahead(cache: PageCache)
    reads cache, cache.spillway
  {
    forall id | id in cache.Unsaved() :: id < cache.nextPageId
  }

  /** A write whose bytes are stamped, or will be when they leave the cache. */
  predicate Good(hash: Hash, op: Op) {
    op.Put? && (op.deferStamp || Stamped(hash, op.buf))
  }

  /** Every good write that nothing touched since can be read back. */
  ghost predicate Lasting(hash: Hash, ops: seq<Op>, events: seq<Event>, sounds: iset<nat>)
    requires |ops| == |events|
  {
    forall i | 0 <= i < |ops| && Good(hash, ops[i]) && events[i].Stored? && (forall j | i < j < |ops| :: !Touches(events[j], ops[i].id)) ::
      ops[i].id in sounds
  }

  lemma LastingMore(hash: Hash, ops: seq<Op>, events: seq<Event>, k: nat, e: Event, before: iset<nat>, after: iset<nat>)
    requires k < |ops| && |events| == k && Lasting(hash, ops[..k], events, before)
    requires forall id: nat | !Touches(e, id) && id in before :: id in after
    requires Good(hash, ops[k]) && e.Stored? ==> ops[k].id in after
    ensures Lasting(hash, ops[..k + 1], events + [e], after)
  {
    hide Stamped;
    var ops1, events1 := ops[..k + 1], events + [e];
    forall i | 0 <= i < k + 1 && Good(hash, ops1[i]) && events1[i].Stored? && (forall j | i < j < k + 1 :: !Touches(events1[j], ops1[i].id))
      ensures ops1[i].id in after
    {
      if i < k {
        assert ops[..k][i] == ops1[i] && events[i] == events1[i];
        assert forall j | i < j < k :: events[j] == events1[j];
        assert events1[k] == e;
      }
    }
  }

  /** The page an operation writes to. */
  predicate Within(op: Op, n: nat) {
    match op
    case Put(id, _, _) => id < n
    case Reissue(id) => id < n
    case Copy(_, dst) => dst < n
    case _ => true
  }

  /** A rollback shows the file as it was saved, cut to `length` pages. */
  method UndoTo(cache: PageCache, length: nat)
    requires cache.Valid()
    modifies cache, cache.lru, cache.spillway
    ensures cache.Valid() && cache.Unsaved() == {} && cache.maxPages == old(cache.maxPages)
    ensures Shown(cache) == Step(old(Shown(cache)), Undone(length))
    ensures cache.nextPageId == Min(old(cache.nextPageId), length) && cache.disk == Resized(old(cache.disk), length)
  {
    hide View, Consistent, Pending, Coherent, Body, Dirty, Zeros;
    hide Lru.LruIndex.Valid, Spillway.Spillway.Valid;
    ghost var saved := View(map[], map[], cache.disk);
    cache.Rollback(length);
    EveryPage(cache);
    SavedPages(old(cache.disk));
    Equal(cache.Flat(), Upto(saved, length));
    AtRest(cache.lru.order, cache.entries, cache.dirtyCount, cache.spillway.contents, cache.disk);
  }

  /** Write a page whole. */
  method PutPage(cache: PageCache, id: u64, buf: Image, deferStamp: bool) returns (e: Event)
    requires cache.Valid()
    modifies cache, cache.lru, cache.spillway
    ensures cache.Valid() && cache.disk == old(cache.disk) && cache.nextPageId == old(cache.nextPageId) && cache.maxPages == old(cache.maxPages)
    ensures e.Failed? || e == Stored(id, Body(buf))
    ensures e.Stored? ==> cache.Flat() == old(cache.Flat())[id := Body(buf)] && cache.Unsaved() == old(cache.Unsaved()) + {id}
    ensures e.Stored? && (deferStamp || Stamped(cache.hash, buf)) ==> id in cache.Sounds()
    ensures old(cache.Sounds()) - iset{id} <= cache.Sounds()
    ensures e.Failed? ==> cache.Flat() == old(cache.Flat()) && cache.Unsaved() == old(cache.Unsaved()) && cache.Sounds() == old(cache.Sounds())
    ensures e.Failed? ==> id !in old(cache.entries) && Refused(e.error, id, cache.spillway.contents, cache.disk, cache.hash)
    ensures e.Failed? && id in old(cache.Sounds()) ==> cache.Full(e.error)
  {
    hide View, Consistent, Pending, Settled, Coherent, Body, Refused, Dirty, SoundIds, Stamped;
    hide Lru.LruIndex.Valid, Spillway.Spillway.Valid, PageCache.Full;
    var r: Result<Image>;
    if deferStamp {
      r := cache.GetMutDeferredStamp(id);
    } else {
      r := cache.GetMut(id);
    }
    if r.Err? {
      return Failed(r.error);
    }
    cache.Write(id, buf);
    return Stored(id, Body(buf));
  }

  /** One operation on the cache. It fails only for lack of room, a page past the file, or a checksum that does not verify. */
  method Apply(cache: PageCache, op: Op) returns (e: Event)
    requires cache.Valid()
    modifies cache, cache.lru, cache.spillway
    ensures cache.Valid() && Shown(cache) == Step(old(Shown(cache)), e) && cache.maxPages == old(cache.maxPages)
    ensures Matches(op, e)
    ensures e.Got? ==> old(cache.Flat())[e.id] == e.body
    ensures (op.Read? || op.Put?) && e.Failed? ==>
              op.id !in old(cache.entries) && Refused(e.error, op.id, cache.spillway.contents, cache.disk, cache.hash)
    ensures (op.Read? || op.Put?) && e.Failed? && op.id in old(cache.Sounds()) ==> cache.Full(e.error)
    ensures op.Copy? && e.Failed? && op.src in old(cache.Sounds()) && op.dst in old(cache.Sounds()) ==> cache.Full(e.error)
    ensures Good(cache.hash, op) && e.Stored? ==> op.id in cache.Sounds()
    ensures forall id: nat | !Touches(e, id) && id in old(cache.Sounds()) :: id in cache.Sounds()
    ensures op.Allocate? && e != Nothing ==> e == Zeroed(old(cache.nextPageId)) && cache.nextPageId == old(cache.nextPageId) + 1
    ensures op.Allocate? && old(Ahead(cache)) && old(cache.nextPageId) < U64_MAX ==> e != Nothing
    ensures old(Ahead(cache)) && Within(op, old(cache.nextPageId)) ==> Ahead(cache)
    ensures !op.Undo? ==> cache.nextPageId >= old(cache.nextPageId)
    ensures !op.Undo? && !op.Save? ==> cache.disk == old(cache.disk)
    ensures op.Undo? ==> cache.nextPageId == Min(old(cache.nextPageId), op.length) && cache.disk == Resized(old(cache.disk), op.length)
    ensures op.Undo? || op.Save? ==> cache.Unsaved() == {}
  {
    hide View, Consistent, Pending, Settled, Coherent, Body, Refused, DiskGot, Dirty, Zeros, SoundIds, Stamped;
    hide Lru.LruIndex.Valid, Spillway.Spillway.Valid, PageCache.Full;
    match op {
      case Read(id) =>
        var r := cache.Get(id);
        e := if r.Ok? then Got(id, Body(r.value)) else Failed(r.error);
      case Put(id, buf, deferStamp) =>
        e := PutPage(cache, id, buf, deferStamp);
      case Allocate =>
        e := Nothing;
        var taken := cache.IsDirty(cache.nextPageId);
        if cache.nextPageId < U64_MAX && !taken {
          e := Zeroed(cache.nextPageId);
          var _ := cache.NewPage();
        }
      case Reissue(id) =>
        var _ := cache.ReissuePage(id);
        e := Zeroed(id);
      case Copy(src, dst) =>
        EveryPage(cache);
        var r := cache.CopyPage(src, dst);
        e := if r.Ok? then Copied(src, dst) else Failed(r.error);
      case Save =>
        var _ := cache.Flush();
        e := Saved;
      case Undo(length) =>
        UndoTo(cache, length);
        e := Undone(length);
    }
  }

  /** Cache transparency over any run of reads, writes, allocations, copies, flushes and rollbacks. */
  method Run(cache: PageCache, ops: seq<Op>) returns (events: seq<Event>)
    requires cache.Valid()
    modifies cache, cache.lru, cache.spillway
    ensures cache.Valid() && |events| == |ops|
    ensures Truthful(old(Shown(cache)), events) && Shown(cache) == Replay(old(Shown(cache)), events)
    ensures forall i | 0 <= i < |ops| :: Matches(ops[i], events[i])
    ensures Lasting(cache.hash, ops, events, cache.Sounds())
    ensures forall id: nat | id in old(cache.Sounds()) && (forall i | 0 <= i < |events| :: !Touches(events[i], id)) :: id in cache.Sounds()
    ensures (forall i | 0 <= i < |ops| :: !ops[i].Undo?) ==> cache.nextPageId >= old(cache.nextPageId)
    ensures (forall i | 0 <= i < |ops| :: !ops[i].Save? && !ops[i].Undo?) ==> cache.disk == old(cache.disk)
  {
    hide View, Consistent, Pending, Coherent, Body, Step, Truthful, Replay, Dirty, Matches, SoundIds, Lasting, Good, Touches;
    hide Lru.LruIndex.Valid, Spillway.Spillway.Valid, PageCache.Full;
    ghost var s := Shown(cache);
    events := [];
    NoEvents(s);
    NoneLasting(cache.hash, ops, cache.Sounds());
    for i := 0 to |ops|
      invariant cache.Valid() && |events| == i
      invariant Truthful(s, events) && Shown(cache) == Replay(s, events)
      invariant forall j | 0 <= j < i :: Matches(ops[j], events[j])
      invariant Lasting(cache.hash, ops[..i], events, cache.Sounds())
      invariant forall id: nat | id in old(cache.Sounds()) && (forall j | 0 <= j < |events| :: !Touches(events[j], id)) :: id in cache.Sounds()
      invariant (forall j | 0 <= j < i :: !ops[j].Undo?) ==> cache.nextPageId >= old(cache.nextPageId)
      invariant (forall j | 0 <= j < i :: !ops[j].Save? && !ops[j].Undo?) ==> cache.disk == old(cache.disk)
    {
      EveryPage(cache);
      ghost var sounds := cache.Sounds();
      var e := Apply(cache, ops[i]);
      TruthfulMore(s, events, e);
      LastingMore(cache.hash, ops, events, i, e, sounds, cache.Sounds());
      StillSound(old(cache.Sounds()), events, e, sounds, cache.Sounds());
      events := events + [e];
    }
    assert ops[..|ops|] == ops;
  }

  lemma NoEvents(s: Ref)
    ensures Truthful(s, []) && Replay(s, []) == s
  {
  }

  lemma NoneLasting(hash: Hash, ops: seq<Op>, sounds: iset<nat>)
    ensures Lasting(hash, ops[..0], [], sounds)
  {
  }

  lemma StillSound(first: iset<nat>, events: seq<Event>, e: Event, before: iset<nat>, after: iset<nat>)
    requires forall id: nat | id in first && (forall j | 0 <= j < |events| :: !Touches(events[j], id)) :: id in before
    requires forall id: nat | !Touches(e, id) && id in before :: id in after
    ensures forall id: nat | id in first && (forall j | 0 <= j < |events + [e]| :: !Touches((events + [e])[j], id)) :: id in after
  {
    hide Touches;
    forall id: nat | id in first && (forall j | 0 <= j < |events + [e]| :: !Touches((events + [e])[j], id)) ensures id in after {
      assert (events + [e])[|events|] == e;
      forall j | 0 <= j < |events| ensures !Touches(events[j], id) {
        assert (events + [e])[j] == events[j];
      }
    }
  }

  lemma EveryPage(cache: PageCache)
    ensures forall id: nat :: id in cache.Flat()
  {
  }

  lemma SavedPages(disk: seq<Image>)
    ensures forall id: nat :: id in View(map[], map[], disk)
  {
  }

  /**
   A transaction that never reaches its flush and is rolled back to `n` pages leaves the pages below
   `n` exactly as it found them, and zeros above; so a file of at most `n` pages shows no trace of it.
   */
  method Abandon(cache: PageCache, ops: seq<Op>, n: nat)
    requires cache.Valid() && cache.Unsaved() == {}
    requires forall i | 0 <= i < |ops| :: !ops[i].Save? && !ops[i].Undo?
    modifies cache, cache.lru, cache.spillway
    ensures cache.Valid() && cache.Unsaved() == {} && cache.disk == Resized(old(cache.disk), n)
    ensures Min(old(cache.nextPageId), n) <= cache.nextPageId <= n
    ensures forall id: nat :: cache.Flat()[id] == if id < n then old(cache.Flat())[id] else Body(Zeros())
    ensures |old(cache.disk)| <= n ==> cache.Flat() == old(cache.Flat())
  {
    hide View, Consistent, Coherent, Body, Truthful, Replay, Dirty, Step, Zeros;
    hide Lru.LruIndex.Valid, Spillway.Spillway.Valid;
    ghost var flat, disk := cache.Flat(), cache.disk;
    EveryPage(cache);
    AtRest(cache.lru.order, cache.entries, cache.dirtyCount, cache.spillway.contents, disk);
    var _ := Run(cache, ops);
    cache.Rollback(n);
    EveryPage(cache);
    if |disk| <= n {
      PastEnd(disk, n);
      Equal(cache.Flat(), flat);
    }
  }

  /** After a flush every page that could be read back is read, with the bytes it held. */
  method SaveAndRead(cache: PageCache, id: u64) returns (last: Event)
    requires cache.Valid() && id in cache.Sounds()
    modifies cache, cache.lru, cache.spillway
    ensures cache.Valid() && id in old(cache.Flat()) && last == Got(id, old(cache.Flat())[id])
  {
    hide View, Consistent, Coherent, Body, DiskGot, Dirty, Zeros, SoundIds, Stamped;
    hide Lru.LruIndex.Valid, Spillway.Spillway.Valid, Lru.Members, Lru.NoDuplicates;
    EveryPage(cache);
    var _ := cache.Flush();
    var r := cache.Get(id);
    last := if r.Ok? then Got(id, Body(r.value)) else Nothing;
  }

  /**
   A page written whole, its stamp in place or deferred, and not touched again, can be read after the
   next flush with the bytes that were written, whatever was evicted or spilled in between.
   */
  method ReadBack(cache: PageCache, put: Op, between: seq<Op>) returns (first: Event, events: seq<Event>, last: Event)
    requires cache.Valid() && Good(cache.hash, put)
    modifies cache, cache.lru, cache.spillway
    ensures cache.Valid() && |events| == |between|
    ensures first.Stored? && (forall i | 0 <= i < |events| :: !Touches(events[i], put.id)) ==> last == Got(put.id, Body(put.buf))
  {
    hide View, Consistent, Coherent, Body, Truthful, Dirty, Zeros, SoundIds, Stamped, Lasting, Pending;
    hide Lru.LruIndex.Valid, Spillway.Spillway.Valid, Replay, PageCache.Full;
    first := Apply(cache, put);
    ghost var s := Shown(cache);
    EveryPage(cache);
    events := Run(cache, between);
    last := Nothing;
    var kept := first.Stored? && forall i | 0 <= i < |events| :: !Touches(events[i], put.id);
    if kept {
      NeverTouched(s, events, put.id);
      last := SaveAndRead(cache, put.id);
    }
  }

  lemma Equal(a: Flat, b: Flat)
    requires forall id: nat :: id in a && id in b && a[id] == b[id]
    ensures a == b
  {
  }

  /** With nothing unsaved the cache shows the disk. */
  lemma AtRest(order: seq<nat>, e: Entries, dc: nat, c: map<nat, seq<byte>>, disk: seq<Image>)
    requires Coherent(order, e, dc, c, disk) && Pending(e, c) == {}
    ensures View(e, c, disk) == View(map[], map[], disk)
  {
    hide View;
    assert c.Keys == {};
    assert c == map[];
    AllClean(order, e, dc, disk);
  }

  lemma PastEnd(disk: seq<Image>, n: nat)
    requires |disk| <= n
    ensures forall id: nat | id >= n :: View(map[], map[], disk)[id] == Body(Zeros())
  {
  }
}
