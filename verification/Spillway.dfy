/**
 The spillway: overflow storage for dirty pages the cache has no room for. Each slot is a 16-byte
 header (page id, checksum over id and payload) and the payload, in one growing byte vector. It
 refines a map from page id to payload with a size cap.
 */
module Spillway {
  import opened Pages

  const SLOT_HEADER_SIZE: nat := 16

  function Offset(i: nat, size: nat): nat {
    i * size
  }

  lemma OffsetNext(i: nat, size: nat)
    ensures Offset(i + 1, size) == Offset(i, size) + size
  {
  }

  lemma OffsetMono(i: nat, j: nat, size: nat)
    requires i <= j
    ensures Offset(i, size) <= Offset(j, size)
  {
  }

  /** Different slots occupy different bytes. */
  lemma SlotsApart(i: nat, j: nat, size: nat)
    requires i != j
    ensures Offset(i, size) + size <= Offset(j, size) || Offset(j, size) + size <= Offset(i, size)
  {
    OffsetNext(i, size);
    OffsetNext(j, size);
    if i < j {
      OffsetMono(i + 1, j, size);
    } else {
      OffsetMono(j + 1, i, size);
    }
  }

  function SlotChecksum(hash: Hash, id: u64, blob: seq<byte>): u64 {
    hash(Le64(id) + blob)
  }

  function SlotBytes(hash: Hash, id: u64, blob: seq<byte>): seq<byte> {
    Le64(id) + Le64(SlotChecksum(hash, id, blob)) + blob
  }

  /** The slot at `i` of the backing holds `blob` for page `id`. */
  ghost predicate Holds(hash: Hash, backing: seq<byte>, size: nat, i: nat, id: u64, blob: seq<byte>) {
    && |blob| + SLOT_HEADER_SIZE == size && Offset(i, size) + size <= |backing|
    && backing[Offset(i, size)..Offset(i, size) + size] == SlotBytes(hash, id, blob)
  }

  /** The triple read back from a slot. */
  function ReadSlotAt(backing: seq<byte>, off: nat, payload: nat): (nat, nat, seq<byte>)
    requires off + SLOT_HEADER_SIZE + payload <= |backing|
  {
    (U64At(backing, off), U64At(backing, off + 8), backing[off + SLOT_HEADER_SIZE..off + SLOT_HEADER_SIZE + payload])
  }

  /** Reading a slot gives back what was written to it. */
  lemma SlotRoundTrip(hash: Hash, backing: seq<byte>, size: nat, i: nat, id: u64, blob: seq<byte>)
    requires Holds(hash, backing, size, i, id, blob)
    ensures ReadSlotAt(backing, Offset(i, size), |blob|) == (id, SlotChecksum(hash, id, blob), blob)
  {
    hide Offset, SlotChecksum, Le64, U64At;
    var off := Offset(i, size);
    var slot := SlotBytes(hash, id, blob);
    assert |Le64(id)| == 8 && |Le64(SlotChecksum(hash, id, blob))| == 8;
    SliceOf(backing, off, size, 0, 8);
    SliceOf(backing, off, size, 8, 16);
    SliceOf(backing, off, size, 16, size);
    assert slot[0..8] == Le64(id) && slot[8..16] == Le64(SlotChecksum(hash, id, blob)) && slot[16..size] == blob;
    U64Decodes(backing, off, id);
    U64Decodes(backing, off + 8, SlotChecksum(hash, id, blob));
  }

  /** The backing after a slot write: extended with zeros if short, then overwritten in place. */
  function Written(backing: seq<byte>, off: nat, data: seq<byte>): seq<byte> {
    var grown := if |backing| < off + |data| then backing + seq(off + |data| - |backing|, _ => 0) else backing;
    Splice(grown, off, data)
  }

  lemma WrittenHolds(hash: Hash, backing: seq<byte>, size: nat, i: nat, id: u64, blob: seq<byte>)
    requires |blob| + SLOT_HEADER_SIZE == size
    ensures Holds(hash, Written(backing, Offset(i, size), SlotBytes(hash, id, blob)), size, i, id, blob)
  {
  }

  lemma WrittenKeeps(hash: Hash, backing: seq<byte>, size: nat, i: nat, data: seq<byte>, j: nat, id: u64, blob: seq<byte>)
    requires |data| == size && i != j && Holds(hash, backing, size, j, id, blob)
    ensures Holds(hash, Written(backing, Offset(i, size), data), size, j, id, blob)
  {
    hide Offset, SlotBytes;
    SlotsApart(i, j, size);
    var a := Offset(j, size);
    assert Written(backing, Offset(i, size), data)[a..a + size] == backing[a..a + size];
  }

  function Bytes(count: nat, payload: nat): nat {
    count * payload
  }

  /** Every resident page has a slot of its own that holds its payload. */
  ghost predicate Stored(hash: Hash, backing: seq<byte>, size: nat, slots: map<nat, nat>, next: nat, contents: map<nat, seq<byte>>) {
    && contents.Keys == slots.Keys
    && (forall id | id in slots :: id <= U64_MAX && slots[id] < next)
    && (forall a, b | a in slots && b in slots && a != b :: slots[a] != slots[b])
    && (forall id | id in slots :: Holds(hash, backing, size, slots[id], id, contents[id]))
  }

  lemma StoredWrite(hash: Hash, backing: seq<byte>, size: nat, slots: map<nat, nat>, next: nat, contents: map<nat, seq<byte>>,
                    id: u64, index: nat, next': nat, blob: seq<byte>)
    requires Stored(hash, backing, size, slots, next, contents) && |blob| + SLOT_HEADER_SIZE == size
    requires if id in slots then index == slots[id] && next' == next else index == next && next' == next + 1
    ensures Stored(hash, Written(backing, Offset(index, size), SlotBytes(hash, id, blob)), size, slots[id := index], next', contents[id := blob])
  {
    hide Offset, Written, SlotBytes, Holds;
    SlotLength(hash, id, blob);
    WrittenHolds(hash, backing, size, index, id, blob);
    forall q | q in slots && q != id
      ensures Holds(hash, Written(backing, Offset(index, size), SlotBytes(hash, id, blob)), size, slots[q], q, contents[q])
    {
      WrittenKeeps(hash, backing, size, index, SlotBytes(hash, id, blob), slots[q], q, contents[q]);
    }
  }

  lemma StoredFewer(hash: Hash, backing: seq<byte>, size: nat, slots: map<nat, nat>, next: nat, contents: map<nat, seq<byte>>,
                    slots': map<nat, nat>, contents': map<nat, seq<byte>>)
    requires Stored(hash, backing, size, slots, next, contents)
    requires slots'.Keys == contents'.Keys <= slots.Keys
    requires forall id | id in slots' :: slots'[id] == slots[id] && contents'[id] == contents[id]
    ensures Stored(hash, backing, size, slots', next, contents')
  {
    hide Holds;
  }

  /** The part of a map below `n`. */
  function Below<T>(m: map<nat, T>, n: nat): map<nat, T> {
    map id | id in m && id < n :: m[id]
  }

  lemma BelowStored(hash: Hash, backing: seq<byte>, size: nat, slots: map<nat, nat>, next: nat, contents: map<nat, seq<byte>>, n: nat)
    requires Stored(hash, backing, size, slots, next, contents)
    ensures Stored(hash, backing, size, Below(slots, n), next, Below(contents, n))
    ensures Below(contents, n).Keys <= contents.Keys
  {
    hide Holds;
    StoredFewer(hash, backing, size, slots, next, contents, Below(slots, n), Below(contents, n));
  }

  lemma ForgetStored(hash: Hash, backing: seq<byte>, size: nat, slots: map<nat, nat>, next: nat, contents: map<nat, seq<byte>>, id: nat)
    requires Stored(hash, backing, size, slots, next, contents)
    ensures Stored(hash, backing, size, slots - {id}, next, contents - {id})
  {
    hide Holds;
    StoredFewer(hash, backing, size, slots, next, contents, slots - {id}, contents - {id});
  }

  lemma NothingStored(hash: Hash, size: nat, payload: nat)
    ensures Stored(hash, [], size, map[], 0, map[]) && Bytes(0, payload) == 0
  {
  }

  lemma StoredCount(hash: Hash, backing: seq<byte>, size: nat, slots: map<nat, nat>, next: nat, contents: map<nat, seq<byte>>, id: nat)
    requires Stored(hash, backing, size, slots, next, contents)
    ensures |slots| == |contents| && (id in slots <==> id in contents)
    ensures id in slots ==> id <= U64_MAX && Holds(hash, backing, size, slots[id], id, contents[id])
  {
    hide Holds;
    assert |slots| == |slots.Keys| && |contents| == |contents.Keys|;
  }

  lemma CountAfter(m: map<nat, seq<byte>>, id: nat, blob: seq<byte>)
    ensures |m[id := blob]| == if id in m then |m| else |m| + 1
  {
    assert |m| == |m.Keys| && |m[id := blob]| == |m[id := blob].Keys|;
    assert m[id := blob].Keys == m.Keys + {id};
  }

  class Spillway {
    var backing: seq<byte>
    var slots: map<nat, nat>
    var nextSlotIndex: nat
    var maxBytes: nat
    const payloadSize: nat
    const hash: Hash
    ghost var contents: map<nat, seq<byte>>

    ghost predicate Valid()
      reads this
    {
      && Stored(hash, backing, SLOT_HEADER_SIZE + payloadSize, slots, nextSlotIndex, contents)
      && Bytes(|contents|, payloadSize) <= maxBytes
    }

    constructor (maxBytes: nat, payloadSize: nat, hash: Hash)
      ensures Valid() && contents == map[] && this.maxBytes == maxBytes && this.payloadSize == payloadSize && this.hash == hash
    {
      backing, slots, nextSlotIndex, contents := [], map[], 0, map[];
      this.maxBytes, this.payloadSize, this.hash := maxBytes, payloadSize, hash;
    }

    /** Write `blob` for page `id`, over its old slot if it has one. Refused only when a new slot would pass the cap. */
    method Spill(id: u64, blob: seq<byte>) returns (r: Result<()>)
      requires Valid() && |blob| == payloadSize
      modifies this
      ensures Valid() && maxBytes == old(maxBytes)
      ensures r.Err? <==> id !in old(contents) && Bytes(|old(contents)| + 1, payloadSize) > maxBytes
      ensures r.Ok? ==> contents == old(contents)[id := blob]
      ensures r.Err? ==> r.error == SpillwayFull && contents == old(contents) && backing == old(backing) && slots == old(slots)
    {
      hide Stored, Offset, SlotBytes, Written, Bytes;
      var size := SLOT_HEADER_SIZE + payloadSize;
      var index: nat;
      StoredCount(hash, backing, size, slots, nextSlotIndex, contents, id);
      CountAfter(contents, id, blob);
      ghost var slots0, next0 := slots, nextSlotIndex;
      if id in slots {
        index := slots[id];
        assert slots[id := index] == slots;
      } else {
        if Bytes(|slots| + 1, payloadSize) > maxBytes {
          return Err(SpillwayFull);
        }
        index := nextSlotIndex;
        nextSlotIndex := nextSlotIndex + 1;
        slots := slots[id := index];
      }
      StoredWrite(hash, backing, size, slots0, next0, contents, id, index, nextSlotIndex, blob);
      backing := Written(backing, Offset(index, size), SlotBytes(hash, id, blob));
      contents := contents[id := blob];
      return Ok(());
    }

    method SlotCount() returns (n: nat)
      requires Valid()
      ensures n == |contents|
    {
      hide Stored;
      StoredCount(hash, backing, SLOT_HEADER_SIZE + payloadSize, slots, nextSlotIndex, contents, 0);
      return |slots|;
    }

    method IsResident(id: nat) returns (r: bool)
      requires Valid()
      ensures r <==> id in contents
    {
      hide Stored;
      StoredCount(hash, backing, SLOT_HEADER_SIZE + payloadSize, slots, nextSlotIndex, contents, id);
      return id in slots;
    }

    /** The payload of a resident page. A slot whose id or checksum does not match is never returned. */
    method Rehydrate(id: u64) returns (r: Result<seq<byte>>)
      ensures Valid() && id in contents ==> r == Ok(contents[id])
      ensures id !in slots ==> r == Err(InvalidPageId(id))
      ensures r.Ok? ==> id in slots && Offset(slots[id], SLOT_HEADER_SIZE + payloadSize) + SLOT_HEADER_SIZE + payloadSize <= |backing|
      ensures r.Ok? ==>
                ReadSlotAt(backing, Offset(slots[id], SLOT_HEADER_SIZE + payloadSize), payloadSize)
                == (id, SlotChecksum(hash, id, r.value), r.value)
    {
      hide Offset, U64At, SlotChecksum, SlotBytes, Stored, Bytes;
      if Valid() {
        StoredCount(hash, backing, SLOT_HEADER_SIZE + payloadSize, slots, nextSlotIndex, contents, id);
      }
      if id !in slots {
        return Err(InvalidPageId(id));
      }
      var off := Offset(slots[id], SLOT_HEADER_SIZE + payloadSize);
      if Valid() {
        SlotRoundTrip(hash, backing, SLOT_HEADER_SIZE + payloadSize, slots[id], id, contents[id]);
      }
      if |backing| < off + SLOT_HEADER_SIZE + payloadSize {
        return Err(ShortRead);
      }
      var (storedId, storedChecksum, blob) := ReadSlotAt(backing, off, payloadSize);
      if storedId != id {
        return Err(ChecksumMismatch(id));
      }
      if SlotChecksum(hash, id, blob) != storedChecksum {
        return Err(ChecksumMismatch(id));
      }
      return Ok(blob);
    }

    /** Drop one page from the resident set; its slot's bytes become garbage. */
    method Forget(id: nat)
      requires Valid()
      modifies this
      ensures Valid() && contents == old(contents) - {id} && maxBytes == old(maxBytes)
    {
      hide Bytes, Stored;
      Fewer(contents, contents - {id}, payloadSize);
      ForgetStored(hash, backing, SLOT_HEADER_SIZE + payloadSize, slots, nextSlotIndex, contents, id);
      slots := slots - {id};
      contents := contents - {id};
    }

    /** Drop every resident page at or above `n`. */
    method ForgetAbove(n: nat)
      requires Valid()
      modifies this
      ensures Valid() && contents == Below(old(contents), n) && maxBytes == old(maxBytes)
    {
      hide Bytes, Stored, Below;
      BelowStored(hash, backing, SLOT_HEADER_SIZE + payloadSize, slots, nextSlotIndex, contents, n);
      Fewer(contents, Below(contents, n), payloadSize);
      slots := Below(slots, n);
      contents := Below(contents, n);
    }

    method Truncate()
      requires Valid()
      modifies this
      ensures Valid() && contents == map[] && backing == [] && nextSlotIndex == 0 && maxBytes == old(maxBytes)
    {
      hide Stored, Bytes;
      NothingStored(hash, SLOT_HEADER_SIZE + payloadSize, payloadSize);
      slots, nextSlotIndex, backing, contents := map[], 0, [], map[];
    }

    /** Up to `batchSize` resident ids, each once, in no particular order; removes nothing. */
    method DrainBatch(batchSize: nat) returns (ids: seq<nat>)
      requires Valid()
      ensures |ids| == Min(batchSize, |contents|)
      ensures forall i | 0 <= i < |ids| :: ids[i] in contents
      ensures forall i, j | 0 <= i < j < |ids| :: ids[i] != ids[j]
    {
      hide Holds;
      StoredCount(hash, backing, SLOT_HEADER_SIZE + payloadSize, slots, nextSlotIndex, contents, 0);
      assert |slots| == |slots.Keys|;
      ids := [];
      var rest := slots.Keys;
      while |ids| < batchSize && rest != {}
        invariant rest <= slots.Keys && |ids| + |rest| == |slots.Keys| && |ids| <= batchSize
        invariant forall i | 0 <= i < |ids| :: ids[i] in slots && ids[i] !in rest
        invariant forall i, j | 0 <= i < j < |ids| :: ids[i] != ids[j]
        decreases |rest|
      {
        var id :| id in rest;
        ids := ids + [id];
        rest := rest - {id};
      }
    }
  }

  lemma SlotLength(hash: Hash, id: u64, blob: seq<byte>)
    ensures |SlotBytes(hash, id, blob)| == SLOT_HEADER_SIZE + |blob|
  {
  }

  lemma Fewer(m: map<nat, seq<byte>>, m': map<nat, seq<byte>>, k: nat)
    requires m'.Keys <= m.Keys
    ensures Bytes(|m'|, k) <= Bytes(|m|, k)
  {
    Smaller(m'.Keys, m.Keys);
    assert |m'| == |m'.Keys| && |m| == |m.Keys|;
    Scaled(|m'|, |m|, k);
  }

  lemma Smaller(a: set<nat>, b: set<nat>)
    requires a <= b
    ensures |a| <= |b|
  {
    assert b == a + (b - a);
    assert |b| == |a| + |b - a|;
  }

  lemma Scaled(a: nat, b: nat, k: nat)
    requires a <= b
    ensures a * k <= b * k
  {
  }
}
