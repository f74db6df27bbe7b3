/**
 What the cache, the spillway and the disk hold together. `Logical` is the page map a user of the
 cache sees: the cached copy if there is one, else the spilled copy, else the disk, else zeros.
 Only the body counts: settling a deferred stamp rewrites the checksum bytes.
 */
module CacheState {
  import opened Pages

  datatype Entry = Entry(buf: Image, dirty: bool, needsStamp: bool)
  type Entries = map<nat, Entry>

  function Dirty(e: Entries): set<nat> {
    set id | id in e && e[id].dirty
  }

  ghost function Logical(e: Entries, spilled: map<nat, seq<byte>>, disk: seq<Image>, id: nat): seq<byte> {
    if id in e then Body(e[id].buf)
    else if id in spilled && |spilled[id]| == PAGE_SIZE then spilled[id][..CHECKSUM_OFFSET]
    else if id < |disk| then Body(disk[id])
    else Body(Zeros())
  }

  ghost function View(e: Entries, spilled: map<nat, seq<byte>>, disk: seq<Image>): imap<nat, seq<byte>> {
    imap id: nat :: Logical(e, spilled, disk, id)
  }

  /** Pages with content the disk does not have yet. */
  ghost function Pending(e: Entries, spilled: map<nat, seq<byte>>): set<nat> {
    Dirty(e) + spilled.Keys
  }

  /** Clean entries agree with the disk, only dirty ones owe a stamp, and no id is both cached and spilled. */
  ghost predicate Consistent(e: Entries, spilled: map<nat, seq<byte>>, disk: seq<Image>) {
    && (forall id | id in e :: id <= U64_MAX && (e[id].needsStamp ==> e[id].dirty))
    && (forall id | id in e && !e[id].dirty :: id < |disk| && disk[id] == e[id].buf)
    && (forall id | id in spilled :: id <= U64_MAX && id !in e && |spilled[id]| == PAGE_SIZE)
  }

  /** The image a page leaves the cache with: its checksum settled if it was deferred. */
  function Settled(hash: Hash, e: Entry): Image {
    if e.needsStamp then Stamp(hash, e.buf) else e.buf
  }

  lemma SettledBody(hash: Hash, e: Entry)
    ensures Body(Settled(hash, e)) == Body(e.buf)
    ensures e.needsStamp ==> Stamped(hash, Settled(hash, e))
  {
    StampVerifies(hash, e.buf);
  }

  /** The page can be read back: its cached copy is stamped or owes a stamp, or its spilled or saved copy is stamped. */
  ghost predicate Sound(hash: Hash, e: Entries, spilled: map<nat, seq<byte>>, disk: seq<Image>, id: nat) {
    if id in e then e[id].needsStamp || Stamped(hash, e[id].buf)
    else if id in spilled then |spilled[id]| == PAGE_SIZE && Stamped(hash, spilled[id])
    else id < |disk| && Stamped(hash, disk[id])
  }

  ghost function SoundIds(hash: Hash, e: Entries, spilled: map<nat, seq<byte>>, disk: seq<Image>): iset<nat> {
    iset id: nat | Sound(hash, e, spilled, disk, id)
  }

  // ----- counting dirty entries -----

  lemma DirtyPut(e: Entries, id: nat, x: Entry)
    ensures Dirty(e[id := x]) == if x.dirty then Dirty(e) + {id} else Dirty(e) - {id}
  {
  }

  lemma DirtyDrop(e: Entries, id: nat)
    ensures Dirty(e - {id}) == Dirty(e) - {id}
  {
  }

  lemma SizePut(e: Entries, id: nat, x: Entry)
    ensures |e[id := x]| == if id in e then |e| else |e| + 1
  {
    assert |e| == |e.Keys| && |e[id := x]| == |e[id := x].Keys|;
    assert e[id := x].Keys == e.Keys + {id};
    assert id in e ==> e.Keys + {id} == e.Keys;
  }

  lemma SizeDrop(e: Entries, id: nat)
    ensures |e - {id}| == if id in e then |e| - 1 else |e|
  {
    assert |e| == |e.Keys| && |e - {id}| == |(e - {id}).Keys|;
    assert (e - {id}).Keys == e.Keys - {id};
    assert id !in e ==> e.Keys - {id} == e.Keys;
  }

  lemma CountPut(e: Entries, id: nat, x: Entry)
    ensures |Dirty(e[id := x])| == |Dirty(e)| + (if x.dirty && id !in Dirty(e) then 1 else 0) - (if !x.dirty && id in Dirty(e) then 1 else 0)
  {
    DirtyPut(e, id, x);
    hide Dirty;
    assert x.dirty && id in Dirty(e) ==> Dirty(e) + {id} == Dirty(e);
    assert !x.dirty && id !in Dirty(e) ==> Dirty(e) - {id} == Dirty(e);
  }

  lemma CountDrop(e: Entries, id: nat)
    ensures |Dirty(e - {id})| == if id in Dirty(e) then |Dirty(e)| - 1 else |Dirty(e)|
  {
    DirtyDrop(e, id);
    hide Dirty;
    assert id !in Dirty(e) ==> Dirty(e) - {id} == Dirty(e);
  }

  /** All entries are dirty exactly when the counts agree. */
  lemma AllDirty(e: Entries)
    ensures |Dirty(e)| <= |e|
    ensures |Dirty(e)| == |e| <==> Dirty(e) == e.Keys
  {
    assert |e| == |e.Keys| && Dirty(e) <= e.Keys;
    assert e.Keys == Dirty(e) + (e.Keys - Dirty(e));
    assert |e.Keys| == |Dirty(e)| + |e.Keys - Dirty(e)|;
  }

  // ----- steps that leave the view alone -----

  /** Dropping a clean entry. */
  lemma EvictClean(e: Entries, spilled: map<nat, seq<byte>>, disk: seq<Image>, id: nat)
    requires Consistent(e, spilled, disk) && id in e && !e[id].dirty
    ensures Consistent(e - {id}, spilled, disk) && View(e - {id}, spilled, disk) == View(e, spilled, disk)
    ensures Pending(e - {id}, spilled) == Pending(e, spilled)
  {
    hide Body;
    forall q: nat ensures Logical(e - {id}, spilled, disk, q) == Logical(e, spilled, disk, q) {
    }
    DirtyDrop(e, id);
  }

  /** Moving a dirty entry, settled, to the spillway. */
  lemma SpillDirty(hash: Hash, e: Entries, spilled: map<nat, seq<byte>>, disk: seq<Image>, id: nat)
    requires Consistent(e, spilled, disk) && id in e && e[id].dirty
    ensures var spilled' := spilled[id := Settled(hash, e[id])];
            && Consistent(e - {id}, spilled', disk)
            && View(e - {id}, spilled', disk) == View(e, spilled, disk)
            && Pending(e - {id}, spilled') == Pending(e, spilled)
  {
    var spilled' := spilled[id := Settled(hash, e[id])];
    SettledBody(hash, e[id]);
    hide Settled;
    forall q: nat ensures Logical(e - {id}, spilled', disk, q) == Logical(e, spilled, disk, q) {
    }
    DirtyDrop(e, id);
  }

  /** Settling a stamp where the entry stands, which a refused spill leaves behind. */
  lemma SettleInPlace(hash: Hash, e: Entries, spilled: map<nat, seq<byte>>, disk: seq<Image>, id: nat)
    requires Consistent(e, spilled, disk) && id in e && e[id].dirty
    ensures var e' := e[id := Entry(Settled(hash, e[id]), true, false)];
            && Consistent(e', spilled, disk)
            && View(e', spilled, disk) == View(e, spilled, disk)
            && Pending(e', spilled) == Pending(e, spilled) && Dirty(e') == Dirty(e)
  {
    var e' := e[id := Entry(Settled(hash, e[id]), true, false)];
    SettledBody(hash, e[id]);
    hide Settled, Body;
    forall q: nat ensures Logical(e', spilled, disk, q) == Logical(e, spilled, disk, q) {
    }
    DirtyPut(e, id, Entry(Settled(hash, e[id]), true, false));
    assert Dirty(e) + {id} == Dirty(e);
  }

  /** Bringing a spilled page back as a dirty entry. */
  lemma LoadSpilled(e: Entries, spilled: map<nat, seq<byte>>, disk: seq<Image>, id: nat, buf: Image)
    requires Consistent(e, spilled, disk) && id in spilled && spilled[id] == buf
    ensures var e' := e[id := Entry(buf, true, false)];
            && Consistent(e', spilled - {id}, disk)
            && View(e', spilled - {id}, disk) == View(e, spilled, disk)
            && Pending(e', spilled - {id}) == Pending(e, spilled)
  {
    var e' := e[id := Entry(buf, true, false)];
    forall q: nat ensures Logical(e', spilled - {id}, disk, q) == Logical(e, spilled, disk, q) {
    }
    DirtyPut(e, id, Entry(buf, true, false));
  }

  /** Caching a page of the disk. */
  lemma LoadDisk(e: Entries, spilled: map<nat, seq<byte>>, disk: seq<Image>, id: u64)
    requires Consistent(e, spilled, disk) && id !in e && id !in spilled && id < |disk|
    ensures var e' := e[id := Entry(disk[id], false, false)];
            && Consistent(e', spilled, disk)
            && View(e', spilled, disk) == View(e, spilled, disk)
            && Pending(e', spilled) == Pending(e, spilled)
  {
    hide Body;
    var e' := e[id := Entry(disk[id], false, false)];
    forall q: nat ensures Logical(e', spilled, disk, q) == Logical(e, spilled, disk, q) {
    }
    DirtyPut(e, id, Entry(disk[id], false, false));
  }

  // ----- steps that change one page of the view -----

  /** A dirty entry put in place of whatever was there, in the cache or in the spillway. */
  lemma PutDirty(e: Entries, spilled: map<nat, seq<byte>>, disk: seq<Image>, id: u64, x: Entry)
    requires Consistent(e, spilled, disk) && x.dirty
    ensures var e' := e[id := x];
            && Consistent(e', spilled - {id}, disk)
            && View(e', spilled - {id}, disk) == View(e, spilled, disk)[id := Body(x.buf)]
            && Pending(e', spilled - {id}) == Pending(e, spilled) + {id}
  {
    hide Body;
    var e' := e[id := x];
    forall q: nat
      ensures Logical(e', spilled - {id}, disk, q) == if q == id then Body(x.buf) else Logical(e, spilled, disk, q)
    {
    }
    DirtyPut(e, id, x);
  }

  // ----- writing to disk -----

  /** The file after a page write: extended with zero pages if the page lies past its end. */
  function DiskPut(disk: seq<Image>, id: nat, buf: Image): seq<Image> {
    if id < |disk| then disk[id := buf] else disk + seq(id - |disk|, _ => Zeros()) + [buf]
  }

  lemma DiskPutAt(disk: seq<Image>, id: nat, buf: Image, q: nat)
    ensures id < |DiskPut(disk, id, buf)| && |disk| <= |DiskPut(disk, id, buf)|
    ensures |DiskPut(disk, id, buf)| == if id < |disk| then |disk| else id + 1
    ensures q < |DiskPut(disk, id, buf)| ==>
              DiskPut(disk, id, buf)[q] == if q == id then buf else if q < |disk| then disk[q] else Zeros()
  {
  }

  /** Writing a dirty entry out, settled, and keeping it as a clean one. */
  lemma FlushEntry(hash: Hash, e: Entries, spilled: map<nat, seq<byte>>, disk: seq<Image>, id: nat)
    requires Consistent(e, spilled, disk) && id in e && e[id].dirty
    ensures var buf := Settled(hash, e[id]);
            var e' := e[id := Entry(buf, false, false)];
            && Consistent(e', spilled, DiskPut(disk, id, buf))
            && View(e', spilled, DiskPut(disk, id, buf)) == View(e, spilled, disk)
            && Pending(e', spilled) == Pending(e, spilled) - {id}
  {
    var buf := Settled(hash, e[id]);
    var e' := e[id := Entry(buf, false, false)];
    SettledBody(hash, e[id]);
    hide Settled, Body, DiskPut;
    DiskPutAt(disk, id, buf, id);
    forall q: nat
      ensures Logical(e', spilled, DiskPut(disk, id, buf), q) == Logical(e, spilled, disk, q)
      ensures q in e' && !e'[q].dirty ==> q < |DiskPut(disk, id, buf)| && DiskPut(disk, id, buf)[q] == e'[q].buf
    {
      DiskPutAt(disk, id, buf, q);
    }
    DirtyPut(e, id, Entry(buf, false, false));
  }

  /** Writing a spilled page out and keeping it as a clean entry. */
  lemma FlushSpilled(e: Entries, spilled: map<nat, seq<byte>>, disk: seq<Image>, id: nat, buf: Image)
    requires Consistent(e, spilled, disk) && id in spilled && spilled[id] == buf
    ensures var e' := e[id := Entry(buf, false, false)];
            && Consistent(e', spilled - {id}, DiskPut(disk, id, buf))
            && View(e', spilled - {id}, DiskPut(disk, id, buf)) == View(e, spilled, disk)
            && Pending(e', spilled - {id}) == Pending(e, spilled) - {id}
  {
    var e' := e[id := Entry(buf, false, false)];
    hide DiskPut;
    DiskPutAt(disk, id, buf, id);
    forall q: nat
      ensures Logical(e', spilled - {id}, DiskPut(disk, id, buf), q) == Logical(e, spilled, disk, q)
      ensures q in e' && !e'[q].dirty ==> q < |DiskPut(disk, id, buf)| && DiskPut(disk, id, buf)[q] == e'[q].buf
    {
      DiskPutAt(disk, id, buf, q);
    }
    DirtyPut(e, id, Entry(buf, false, false));
  }

  // ----- which pages can be read back -----

  lemma SoundEvict(hash: Hash, e: Entries, spilled: map<nat, seq<byte>>, disk: seq<Image>, id: nat)
    requires Consistent(e, spilled, disk) && id in e && !e[id].dirty
    ensures SoundIds(hash, e - {id}, spilled, disk) == SoundIds(hash, e, spilled, disk)
  {
    hide Stamped;
  }

  /** Only a settled image may be spilled: a page that owed its stamp is stamped in the spillway. */
  lemma SoundSpill(hash: Hash, e: Entries, spilled: map<nat, seq<byte>>, disk: seq<Image>, id: nat)
    requires Consistent(e, spilled, disk) && id in e
    ensures SoundIds(hash, e - {id}, spilled[id := Settled(hash, e[id])], disk) == SoundIds(hash, e, spilled, disk)
    ensures SoundIds(hash, e[id := Entry(Settled(hash, e[id]), true, false)], spilled, disk) == SoundIds(hash, e, spilled, disk)
  {
    SettledBody(hash, e[id]);
    hide Stamped, Stamp;
  }

  lemma SoundLoadSpilled(hash: Hash, e: Entries, spilled: map<nat, seq<byte>>, disk: seq<Image>, id: nat, buf: Image)
    requires Consistent(e, spilled, disk) && id in spilled && spilled[id] == buf
    ensures SoundIds(hash, e[id := Entry(buf, true, false)], spilled - {id}, disk) == SoundIds(hash, e, spilled, disk)
  {
    hide Stamped;
  }

  lemma SoundLoadDisk(hash: Hash, e: Entries, spilled: map<nat, seq<byte>>, disk: seq<Image>, id: nat)
    requires id !in e && id !in spilled && id < |disk|
    ensures SoundIds(hash, e[id := Entry(disk[id], false, false)], spilled, disk) == SoundIds(hash, e, spilled, disk)
  {
    hide Stamped;
  }

  /** An entry put in place of whatever was there decides whether the page can be read back. */
  lemma SoundPut(hash: Hash, e: Entries, spilled: map<nat, seq<byte>>, disk: seq<Image>, id: nat, x: Entry)
    ensures SoundIds(hash, e[id := x], spilled - {id}, disk)
         == if x.needsStamp || Stamped(hash, x.buf) then SoundIds(hash, e, spilled, disk) + iset{id} else SoundIds(hash, e, spilled, disk) - iset{id}
  {
    hide Stamped;
  }

  lemma SoundMark(hash: Hash, e: Entries, spilled: map<nat, seq<byte>>, disk: seq<Image>, id: nat)
    requires id in e
    ensures SoundIds(hash, e[id := e[id].(dirty := true)], spilled, disk) == SoundIds(hash, e, spilled, disk)
    ensures SoundIds(hash, e[id := e[id].(needsStamp := true)], spilled, disk) == SoundIds(hash, e, spilled, disk) + iset{id}
  {
    hide Stamped;
  }

  /** Writing an entry out, settled, loses no page. */
  lemma SoundFlush(hash: Hash, e: Entries, spilled: map<nat, seq<byte>>, disk: seq<Image>, id: nat)
    requires id in e
    ensures SoundIds(hash, e, spilled, disk)
         <= SoundIds(hash, e[id := Entry(Settled(hash, e[id]), false, false)], spilled, DiskPut(disk, id, Settled(hash, e[id])))
  {
    SettledSound(hash, e[id]);
    hide Stamped, DiskPut, Settled;
    forall q: nat | Sound(hash, e, spilled, disk, q)
      ensures Sound(hash, e[id := Entry(Settled(hash, e[id]), false, false)], spilled, DiskPut(disk, id, Settled(hash, e[id])), q)
    {
      DiskPutAt(disk, id, Settled(hash, e[id]), q);
    }
  }

  lemma SettledSound(hash: Hash, x: Entry)
    ensures Stamped(hash, Settled(hash, x)) <==> x.needsStamp || Stamped(hash, x.buf)
  {
    SettledBody(hash, x);
    hide Stamped, Stamp;
  }

  lemma SoundDrain(hash: Hash, e: Entries, spilled: map<nat, seq<byte>>, disk: seq<Image>, id: nat, buf: Image)
    requires Consistent(e, spilled, disk) && id in spilled && spilled[id] == buf
    ensures SoundIds(hash, e, spilled, disk)
         <= SoundIds(hash, e[id := Entry(buf, false, false)], spilled - {id}, DiskPut(disk, id, buf))
  {
    hide Stamped, DiskPut;
    forall q: nat | Sound(hash, e, spilled, disk, q)
      ensures Sound(hash, e[id := Entry(buf, false, false)], spilled - {id}, DiskPut(disk, id, buf), q)
    {
      DiskPutAt(disk, id, buf, q);
    }
  }

  /** With nothing unsaved, the pages that can be read back are those stamped on disk. */
  lemma SoundAtRest(hash: Hash, e: Entries, spilled: map<nat, seq<byte>>, disk: seq<Image>)
    requires Consistent(e, spilled, disk) && Pending(e, spilled) == {}
    ensures SoundIds(hash, e, spilled, disk) == SoundIds(hash, map[], map[], disk)
  {
    hide Stamped;
    assert forall q | q in e :: !e[q].dirty by {
      forall q | q in e ensures !e[q].dirty {
        assert q !in Pending(e, spilled);
      }
    }
    assert forall q | q in spilled :: q in Pending(e, spilled);
  }

  // ----- rolling back -----

  function Clean(e: Entries): Entries {
    map id | id in e && !e[id].dirty :: e[id]
  }

  /** Without its dirty entries and without the spillway, the cache shows the disk. */
  lemma OnlyClean(e: Entries, spilled: map<nat, seq<byte>>, disk: seq<Image>)
    requires Consistent(e, spilled, disk)
    ensures Consistent(Clean(e), map[], disk) && Dirty(Clean(e)) == {} && Pending(Clean(e), map[]) == {}
    ensures View(Clean(e), map[], disk) == View(map[], map[], disk)
  {
    hide Body;
    forall q: nat ensures Logical(Clean(e), map[], disk, q) == Logical(map[], map[], disk, q) {
    }
  }

  function EntriesBelow(e: Entries, n: nat): Entries {
    map id | id in e && id < n :: e[id]
  }

  /** The file cut or zero-extended to `n` pages. */
  function Resized(disk: seq<Image>, n: nat): seq<Image> {
    if n <= |disk| then disk[..n] else disk + seq(n - |disk|, _ => Zeros())
  }

  /** Cutting everything at `n` keeps what lies below and forgets what lies above. */
  lemma Cut(e: Entries, spilled: map<nat, seq<byte>>, disk: seq<Image>, n: nat, spilled': map<nat, seq<byte>>)
    requires Consistent(e, spilled, disk)
    requires spilled' == map id | id in spilled && id < n :: spilled[id]
    ensures Consistent(EntriesBelow(e, n), spilled', Resized(disk, n))
    ensures forall id: nat :: View(EntriesBelow(e, n), spilled', Resized(disk, n))[id]
                           == if id < n then View(e, spilled, disk)[id] else Body(Zeros())
  {
    hide Body, Zeros;
  }
}
